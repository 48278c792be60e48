/** When exactly each request to a shard succeeds and what it then stores, in terms a caller can check beforehand; and
    where every accepted entry of a run comes from. */
module ShardGuards {
  import opened Bytes
  import opened KeyValue
  import opened Shard
  import opened ShardRuns
  import opened ShardLimits

  // ---------- one guard at a time ----------

  /** The limiter admits exactly below the limit of the current minute, and an admission adds one to that counter
      alone. */
  lemma LimitExactly(s: State, b: Bucket, limit: int, now: int)
    ensures var (ok, s') := RateLimit(s, b, limit, now);
            var key := (b, now / 60_000);
            && (ok <==> Count(s, key) < limit)
            && s'.mailboxes == s.mailboxes && s'.replay == s.replay
            && Count(s', key) == Count(s, key) + (if ok then 1 else 0)
            && (forall k | k != key :: k in s'.counters <==> k in s.counters)
            && (forall k | k != key && k in s.counters :: s'.counters[k] == s.counters[k])
            && (ok ==> s'.counters[key].expiresAt == now + 65_000)
            && (!ok ==> s' == s)
  {
  }

  predicate Below(s: State, b: Bucket, limit: int, now: int) {
    Count(s, (b, now / 60_000)) < limit
  }

  /** The limiter of one bucket does not look at the others. */
  lemma LimitApart(s: State, b: Bucket, limit: int, now: int)
    ensures var (ok, s') := RateLimit(s, b, limit, now);
            && (ok <==> Below(s, b, limit, now)) && s'.mailboxes == s.mailboxes && s'.replay == s.replay
            && forall b', limit' | b' != b :: Below(s', b', limit', now) == Below(s, b', limit', now)
  {
    LimitExactly(s, b, limit, now);
  }

  predicate InTime(lib: Lib, cfg: Config, auth: Auth, now: int) {
    lib.number(auth.timestamp) - cfg.maxClockSkew <= now <= lib.number(auth.timestamp) + cfg.maxClockSkew
  }

  /** The sender's key accepts the signature on the text that names the key, the mailbox, the time and the message. */
  predicate SignedFor(lib: Lib, mailbox: string, message: string, auth: Auth) {
    lib.verify(auth.pubkey, "send:" + auth.pubkey + ":" + mailbox + ":" + auth.timestamp + ":" + lib.sha(message),
               auth.signature)
  }

  /** Authentication succeeds exactly under three guards, and then remembers the triple for at least a minute and at
      least the skew, in whole seconds. */
  lemma AuthExactly(lib: Lib, cfg: Config, s: State, auth: Auth, text: string, now: int)
    ensures var (ok, s') := SenderAuth(lib, cfg.maxClockSkew, s, auth, text, now);
            && (ok <==> InTime(lib, cfg, auth, now) && auth !in s.replay
                        && lib.verify(auth.pubkey, text, auth.signature))
            && s'.mailboxes == s.mailboxes && s'.counters == s.counters
            && (!ok ==> s' == s)
            && (ok ==>
                  && auth in s'.replay && s'.replay == s.replay[auth := s'.replay[auth]]
                  && var life := s'.replay[auth].expiresAt - now;
                     && life % 1000 == 0 && life >= 60_000 && life >= cfg.maxClockSkew
                     && (life == 60_000 || life < cfg.maxClockSkew + 1000))
  {
  }

  // ---------- sending ----------

  predicate SmallEnough(lib: Lib, cfg: Config, op: Op)
    requires op.Send?
  {
    op.message != "" && lib.utf8Length(op.message) <= cfg.maxMsgBytes
  }

  predicate Authentic(lib: Lib, cfg: Config, s: State, op: Op, now: int)
    requires op.Send?
  {
    InTime(lib, cfg, op.auth, now) && op.auth !in s.replay && SignedFor(lib, op.id, op.message, op.auth)
  }

  predicate SendAdmitted(cfg: Config, s: State, op: Op, now: int)
    requires op.Send?
  {
    && Below(s, SendSender(op.auth.pubkey), cfg.maxSendsPerSender, now)
    && Below(s, SendTarget(op.id), cfg.maxSendsPerTarget, now)
    && Below(s, SendIp(op.ip), cfg.maxSendsPerIp, now)
  }

  lemma ChecksExactly(lib: Lib, cfg: Config, s: State, op: Op, now: int)
    requires op.Send?
    ensures var (error, s') := SendChecks(lib, cfg, s, op, now);
            && s'.mailboxes == s.mailboxes
            && error == if !SmallEnough(lib, cfg, op) then Some(400)
                        else if !Authentic(lib, cfg, s, op, now) then Some(401)
                        else if !SendAdmitted(cfg, s, op, now) then Some(429)
                        else if !EnvelopeOk(lib, op.message) then Some(400)
                        else None
  {
    hide EnvelopeOk, RateLimit, SenderAuth, Below, InTime;
    AuthExactly(lib, cfg, s, op.auth, SignedSend(lib, op), now);
    var s1 := SenderAuth(lib, cfg.maxClockSkew, s, op.auth, SignedSend(lib, op), now).1;
    SameBelow(s, s1, now);
    LimitApart(s1, SendSender(op.auth.pubkey), cfg.maxSendsPerSender, now);
    var s2 := RateLimit(s1, SendSender(op.auth.pubkey), cfg.maxSendsPerSender, now).1;
    LimitApart(s2, SendTarget(op.id), cfg.maxSendsPerTarget, now);
    var s3 := RateLimit(s2, SendTarget(op.id), cfg.maxSendsPerTarget, now).1;
    LimitApart(s3, SendIp(op.ip), cfg.maxSendsPerIp, now);
  }

  lemma SameBelow(s: State, s': State, now: int)
    requires s.counters == s'.counters
    ensures forall b, limit :: Below(s', b, limit, now) == Below(s, b, limit, now)
  {
  }

  /** What a record's queue is worth at `now`: nothing once the oldest entry has waited for the whole time to live. */
  function Backlog(cfg: Config, m: Mailbox, now: int): seq<Entry> {
    if m.enqueuedAt.Some? && now - m.enqueuedAt.value >= 1000 * cfg.ttlSeconds then [] else m.messages
  }

  function BacklogSince(cfg: Config, m: Mailbox, now: int): Option<int> {
    if m.enqueuedAt.Some? && now - m.enqueuedAt.value >= 1000 * cfg.ttlSeconds then None else m.enqueuedAt
  }

  lemma RefreshedIs(cfg: Config, m: Mailbox, now: int)
    ensures Refreshed(m, cfg, now) == m.(messages := Backlog(cfg, m, now), enqueuedAt := BacklogSince(cfg, m, now))
  {
  }

  /** The store with one record put under `id`, living for the mailbox lifetime from `now`. */
  function WithRecord(cfg: Config, s: State, id: string, m: Mailbox, now: int): map<string, Kept<Mailbox>> {
    s.mailboxes[id := Kept(m, now + 1000 * cfg.mailboxTtlSeconds)]
  }

  /** The outcome of a send, each refusal for its reason, and what an accepted one stores. */
  lemma SendExactly(lib: Lib, cfg: Config, s: State, op: Op, now: int)
    requires op.Send?
    ensures var (reply, s') := Handle(lib, cfg, s, op, now);
            var known := op.id in s.mailboxes;
            if !SmallEnough(lib, cfg, op) then reply == Refused(400)
            else if !Authentic(lib, cfg, s, op, now) then reply == Refused(401)
            else if !SendAdmitted(cfg, s, op, now) then reply == Refused(429)
            else if !EnvelopeOk(lib, op.message) then reply == Refused(400)
            else if !known then reply == Refused(404)
            else
              var m := s.mailboxes[op.id].value;
              var queue, since := Backlog(cfg, m, now), BacklogSince(cfg, m, now);
              if |queue| >= cfg.maxMessages then reply == Refused(429)
              else
                var e := Entry(op.freshId, now, op.message, op.auth.pubkey);
                var m' := m.(messages := queue + [e], enqueuedAt := if since.Some? then since else Some(now));
                reply == Sent(e, |queue| + 1) && s'.mailboxes == WithRecord(cfg, s, op.id, m', now)
    ensures Handle(lib, cfg, s, op, now).0.Refused? ==> Handle(lib, cfg, s, op, now).1.mailboxes == s.mailboxes
  {
    hide SendChecks, EnvelopeOk, SmallEnough, Authentic, SendAdmitted, Refreshed, Backlog, BacklogSince;
    ChecksExactly(lib, cfg, s, op, now);
    if op.id in s.mailboxes {
      RefreshedIs(cfg, s.mailboxes[op.id].value, now);
    }
  }

  // ---------- the other requests ----------

  /** A creation succeeds exactly with a signed capability that has not run out, below the limit. A new record starts
      empty at this moment; an existing one keeps its queue, its creation time and whatever the request leaves out. */
  lemma CreateExactly(lib: Lib, cfg: Config, s: State, op: Op, now: int)
    requires op.Create?
    ensures var (reply, s') := Handle(lib, cfg, s, op, now);
            var b := CreateIp(op.ip);
            if !(now <= op.capExp && op.capSigned) then reply == Refused(401) && s' == s
            else if !Below(s, b, cfg.maxCreatesPerIp, now) then reply == Refused(429) && s' == s
            else
              && reply == Created(op.id !in s.mailboxes)
              && op.id in s'.mailboxes
              && var m := s'.mailboxes[op.id].value;
                 && s'.mailboxes == WithRecord(cfg, s, op.id, m, now)
                 && m.readSecretHash == op.hash
                 && (op.id !in s.mailboxes ==> m == Mailbox(op.hash, op.client, [], now, None, op.urls))
                 && (op.id in s.mailboxes ==>
                       var old' := s.mailboxes[op.id].value;
                       && m.messages == old'.messages && m.enqueuedAt == old'.enqueuedAt
                       && m.createdAt == old'.createdAt
                       && m.clientPubkey == (if op.client.Some? then op.client else old'.clientPubkey)
                       && m.replicas == (if |op.urls| > 0 then op.urls else old'.replicas))
  {
    hide RateLimit;
    LimitExactly(s, CreateIp(op.ip), cfg.maxCreatesPerIp, now);
  }

  /** A replication succeeds exactly when its timestamp is within a minute, its origin is below the limit, in the
      routing table, and has signed. An entry whose id is queued changes nothing; any other goes to the end of the
      queue, if need be of a record that nobody can read yet. */
  lemma ReplicateExactly(lib: Lib, cfg: Config, s: State, op: Op, now: int)
    requires op.Replicate?
    ensures var (reply, s') := Handle(lib, cfg, s, op, now);
            var shell := Mailbox("", None, [], now, None, op.urls);
            var m := if op.id in s.mailboxes then s.mailboxes[op.id].value else shell;
            if !(op.timestamp - 60_000 <= now <= op.timestamp + 60_000) then reply == Refused(401) && s' == s
            else if !Below(s, ReplicateOrigin(op.origin), cfg.maxReplicatesPerOrigin, now)
            then reply == Refused(429) && s' == s
            else if !op.known || !op.signed then reply == Refused(401) && s'.mailboxes == s.mailboxes
            else if exists k :: 0 <= k < |m.messages| && m.messages[k].id == op.entry.id
            then reply == Replicated(true) && s'.mailboxes == s.mailboxes
            else
              var since := if m.enqueuedAt.Some? then m.enqueuedAt else Some(now);
              && reply == Replicated(false)
              && s'.mailboxes == WithRecord(cfg, s, op.id, m.(messages := m.messages + [op.entry], enqueuedAt := since),
                                            now)
  {
    hide RateLimit;
    LimitExactly(s, ReplicateOrigin(op.origin), cfg.maxReplicatesPerOrigin, now);
  }

  /** A read is answered exactly below 300 a minute, for a record whose secret it knows; it hands out the backlog and
      leaves it or nothing. */
  lemma ReadExactly(lib: Lib, cfg: Config, s: State, op: Op, now: int)
    requires op.Read?
    ensures var (reply, s') := Handle(lib, cfg, s, op, now);
            if !Below(s, ReadIp(op.ip), 300, now) then reply == Refused(429) && s' == s
            else if op.id !in s.mailboxes then reply == Refused(404) && s'.mailboxes == s.mailboxes
            else
              var m := s.mailboxes[op.id].value;
              if lib.sha(op.secret) != m.readSecretHash then reply == Refused(401) && s'.mailboxes == s.mailboxes
              else
                var queue, since := Backlog(cfg, m, now), BacklogSince(cfg, m, now);
                var m' := if op.peek then m.(messages := queue, enqueuedAt := since)
                          else m.(messages := [], enqueuedAt := None);
                && reply == Messages(queue, !op.peek)
                && s'.mailboxes == WithRecord(cfg, s, op.id, m', now)
  {
    hide RateLimit, Refreshed, Backlog, BacklogSince;
    LimitExactly(s, ReadIp(op.ip), 300, now);
    if op.id in s.mailboxes {
      RefreshedIs(cfg, s.mailboxes[op.id].value, now);
    }
  }

  /** The probe says whether a record is there, below 300 a minute, and changes none. */
  lemma ExistsExactly(lib: Lib, cfg: Config, s: State, op: Op, now: int)
    requires op.Exists?
    ensures var (reply, s') := Handle(lib, cfg, s, op, now);
            && s'.mailboxes == s.mailboxes && s'.replay == s.replay
            && reply == if !Below(s, ExistsIp(op.ip), 300, now) then Refused(429)
                        else if op.id in s.mailboxes then Found else Refused(404)
  {
    hide RateLimit;
    LimitExactly(s, ExistsIp(op.ip), 300, now);
  }

  // ---------- where the entries of a run come from ----------

  /** Request `t` is a send to `k` that brought `e` in, signed by its sender for this mailbox and this message. */
  predicate BroughtBySend(lib: Lib, cfg: Config, k: string, t: Timed, e: Entry) {
    && t.op.Send? && t.op.id == k && e == Entry(t.op.freshId, t.now, t.op.message, t.op.auth.pubkey)
    && InTime(lib, cfg, t.op.auth, t.now) && SignedFor(lib, k, t.op.message, t.op.auth)
  }

  /** Request `t` is a replication of `e` to `k`, by a known origin that signed it, within a minute of its timestamp. */
  predicate BroughtByReplica(k: string, t: Timed, e: Entry) {
    && t.op.Replicate? && t.op.id == k && e == t.op.entry && t.op.known && t.op.signed
    && t.op.timestamp - 60_000 <= t.now <= t.op.timestamp + 60_000
  }

  predicate Brought(lib: Lib, cfg: Config, k: string, t: Timed, e: Entry) {
    BroughtBySend(lib, cfg, k, t, e) || BroughtByReplica(k, t, e)
  }

  lemma AcceptedIsBrought(lib: Lib, cfg: Config, k: string, s: State, t: Timed)
    ensures var reply := Step(lib, cfg, s, t.op, t.now).0;
            forall e | e in AcceptedNow(k, t.op, reply) :: Brought(lib, cfg, k, t, e)
  {
    hide Handle, EnvelopeOk, SmallEnough, SendAdmitted, InTime, SignedFor, Below, Backlog, BacklogSince, Visible;
    if t.op.Send? {
      SendExactly(lib, cfg, Visible(s, t.now), t.op, t.now);
    } else if t.op.Replicate? {
      ReplicateExactly(lib, cfg, Visible(s, t.now), t.op, t.now);
    } else if t.op.Create? {
      CreateExactly(lib, cfg, Visible(s, t.now), t.op, t.now);
    } else if t.op.Read? {
      ReadExactly(lib, cfg, Visible(s, t.now), t.op, t.now);
    } else {
      ExistsExactly(lib, cfg, Visible(s, t.now), t.op, t.now);
    }
  }

  /** Over any run, every entry accepted for a mailbox was brought by one of its requests: by a send that its sender had
      signed for this very mailbox and message, or by a replication that a known shard had signed. */
  lemma {:induction false} EveryEntryIsAuthentic(lib: Lib, cfg: Config, k: string, l: Ledger, ts: seq<Timed>)
    ensures var l' := Run(lib, cfg, k, l, ts);
            forall e | e in l'.accepted :: e in l.accepted || exists t :: t in ts && Brought(lib, cfg, k, t, e)
    decreases |ts|
  {
    hide Step, Brought, AcceptedNow, LapsedNow, StaleNow, ReturnedNow, Visible;
    if ts != [] {
      var l1 := Advance(lib, cfg, k, l, ts[0]);
      AcceptedIsBrought(lib, cfg, k, l.state, ts[0]);
      EveryEntryIsAuthentic(lib, cfg, k, l1, ts[1..]);
      var l' := Run(lib, cfg, k, l, ts);
      forall e | e in l'.accepted && e !in l.accepted ensures exists t :: t in ts && Brought(lib, cfg, k, t, e) {
        if e in l1.accepted {
          assert ts[0] in ts && Brought(lib, cfg, k, ts[0], e);
        } else {
          var t :| t in ts[1..] && Brought(lib, cfg, k, t, e);
          assert t in ts;
        }
      }
    }
  }

  /** So in a shard that started empty, whatever a mailbox holds or a read hands out is authentic in that sense. */
  lemma HeldIsAuthentic(lib: Lib, cfg: Config, k: string, ts: seq<Timed>, now: int)
    ensures var l := Run(lib, cfg, k, Ledger(State(map[], map[], map[]), now, [], [], [], 0), ts);
            forall e | e in Removed(l.removed) + Held(l.state, k) :: exists t :: t in ts && Brought(lib, cfg, k, t, e)
  {
    hide Brought, Run;
    var start := Ledger(State(map[], map[], map[]), now, [], [], [], 0);
    EveryEntryIsAuthentic(lib, cfg, k, start, ts);
    RunConserves(lib, cfg, k, [], start, ts);
  }

  // ---------- envelopes ----------

  /** The last property of its name. */
  predicate Counts(fields: seq<Property>, k: nat)
    requires k < |fields|
  {
    forall j | k < j < |fields| :: fields[j].name != fields[k].name
  }

  /** The value a field ends up with: that of the last property of its name. */
  lemma {:induction false} FieldIsLast(fields: seq<Property>, name: string)
    ensures match Field(fields, name)
            case None => forall k | 0 <= k < |fields| :: fields[k].name != name
            case Some(v) =>
              exists k :: 0 <= k < |fields| && fields[k] == Property(name, v)
                          && forall j | k < j < |fields| :: fields[j].name != name
  {
    if fields != [] {
      FieldIsLast(fields[1..], name);
      match Field(fields[1..], name)
      case Some(v) =>
        var k :| 0 <= k < |fields| - 1 && fields[1..][k] == Property(name, v)
                 && forall j | k < j < |fields| - 1 :: fields[1..][j].name != name;
        assert fields[k + 1] == Property(name, v);
        forall j | k + 1 < j < |fields| ensures fields[j].name != name {
          assert fields[1..][j - 1].name != name;
        }
      case None =>
        forall j | 0 < j < |fields| ensures fields[j].name != name {
          assert fields[1..][j - 1].name != name;
        }
    }
  }

  /** A way down from a value to something inside it: the positions of the items and fields passed through. A field that
      a later one of its name overrides is not there. */
  predicate Path(v: Json, p: seq<nat>)
    decreases |p|
  {
    p == [] || match v
      case JArray(items) => p[0] < |items| && Path(items[p[0]], p[1..])
      case JObject(fields) => p[0] < |fields| && Counts(fields, p[0]) && Path(fields[p[0]].value, p[1..])
      case _ => false
  }

  lemma CountsIs(fields: seq<Property>, k: nat)
    requires k < |fields|
    ensures Counts(fields, k) <==> Field(fields[k + 1..], fields[k].name).None?
  {
    var rest := fields[k + 1..];
    FieldIsLast(rest, fields[k].name);
    assert forall j | 0 <= j < |rest| :: rest[j] == fields[k + 1 + j];
    assert forall j | k < j < |fields| :: fields[j] == rest[j - k - 1];
  }

  lemma {:induction false} ItemsAtLeast(items: seq<Json>, k: nat)
    requires k < |items|
    ensures 1 + Nesting(items[k]) <= ItemsNesting(items)
  {
    if k > 0 {
      ItemsAtLeast(items[1..], k - 1);
    }
  }

  lemma {:induction false} FieldsAtLeast(fields: seq<Property>, k: nat)
    requires k < |fields| && Counts(fields, k)
    ensures 1 + Nesting(fields[k].value) <= FieldsNesting(fields)
  {
    if k > 0 {
      assert forall j | 0 <= j < |fields| - 1 :: fields[1..][j] == fields[j + 1];
      FieldsAtLeast(fields[1..], k - 1);
    } else {
      CountsIs(fields, 0);
    }
  }

  /** No way down is longer than the nesting. */
  lemma {:induction false} PathAtMost(v: Json, p: seq<nat>)
    requires Path(v, p)
    ensures |p| <= Nesting(v)
    decreases |p|
  {
    if p != [] {
      match v
      case JArray(items) =>
        PathAtMost(items[p[0]], p[1..]);
        ItemsAtLeast(items, p[0]);
      case JObject(fields) =>
        PathAtMost(fields[p[0]].value, p[1..]);
        FieldsAtLeast(fields, p[0]);
    }
  }

  lemma {:induction false} DeepestItem(items: seq<Json>) returns (k: nat)
    requires items != []
    ensures k < |items| && 1 + Nesting(items[k]) == ItemsNesting(items)
  {
    k := 0;
    if |items| > 1 && 1 + Nesting(items[0]) <= ItemsNesting(items[1..]) {
      k := DeepestItem(items[1..]);
      k := k + 1;
    }
  }

  lemma {:induction false} DeepestField(fields: seq<Property>) returns (k: nat)
    requires fields != []
    ensures k < |fields| && Counts(fields, k) && 1 + Nesting(fields[k].value) == FieldsNesting(fields)
  {
    k := 0;
    CountsIs(fields, 0);
    if |fields| > 1 && !(Counts(fields, 0) && 1 + Nesting(fields[0].value) > FieldsNesting(fields[1..])) {
      k := DeepestField(fields[1..]);
      k := k + 1;
      assert forall j | 0 <= j < |fields| - 1 :: fields[1..][j] == fields[j + 1];
    }
  }

  /** Some way down is as long as the nesting. */
  lemma {:induction false} DeepestPath(v: Json) returns (p: seq<nat>)
    ensures Path(v, p) && |p| == Nesting(v)
    decreases v
  {
    p := [];
    match v {
      case JArray(items) =>
        if items != [] {
          var k := DeepestItem(items);
          p := DeepestPath(items[k]);
          p := [k] + p;
        }
      case JObject(fields) =>
        if fields != [] {
          var k := DeepestField(fields);
          p := DeepestPath(fields[k].value);
          p := [k] + p;
        }
      case _ =>
    }
  }

  /** A message passes the shape check exactly when it is not JSON, or is an array or object with no way down of more
      than eight steps whose `type`, if that is a string, is one of the four known ones. */
  lemma EnvelopeExactly(lib: Lib, message: string)
    ensures EnvelopeOk(lib, message) <==>
      match lib.parse(message)
      case None => true
      case Some(v) =>
        && (v.JArray? || v.JObject?)
        && (forall p | Path(v, p) :: |p| <= 8)
        && (v.JObject? ==>
              forall k | 0 <= k < |v.fields| && Counts(v.fields, k) ::
                v.fields[k].name == "type" && v.fields[k].value.JString?
                ==> v.fields[k].value.s in ["offer", "answer", "message", "finish"])
  {
    hide JsonDepth, Path, Nesting, Field;
    match lib.parse(message)
    case None =>
    case Some(v) =>
      DepthExact(v, 0);
      var deepest := DeepestPath(v);
      forall p | Path(v, p) ensures |p| <= Nesting(v) {
        PathAtMost(v, p);
      }
      if v.JObject? {
        TypeField(v.fields);
      }
  }

  /** Which property is the `type` that counts. */
  lemma TypeField(fields: seq<Property>)
    ensures forall k | 0 <= k < |fields| && Counts(fields, k) && fields[k].name == "type" ::
              Field(fields, "type") == Some(fields[k].value)
    ensures Field(fields, "type").Some? ==>
              exists k :: 0 <= k < |fields| && Counts(fields, k)
                          && fields[k] == Property("type", Field(fields, "type").value)
  {
    hide Field;
    FieldIsLast(fields, "type");
    if Field(fields, "type").Some? {
      var v := Field(fields, "type").value;
      var k :| 0 <= k < |fields| && fields[k] == Property("type", v)
               && forall j | k < j < |fields| :: fields[j].name != "type";
      assert Counts(fields, k);
      forall i | 0 <= i < |fields| && Counts(fields, i) && fields[i].name == "type" ensures i == k {
        assert fields[i].name == fields[k].name;
      }
    }
  }
}
