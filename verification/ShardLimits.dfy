/** The replay cache, the fixed-window limiter and the envelope depth check of shard/worker.js, over whole runs. */
module ShardLimits {
  import opened Bytes
  import opened KeyValue
  import opened Shard
  import opened ShardRuns

  /** The store after the first `n` requests. */
  function After(lib: Lib, cfg: Config, s: State, ts: seq<Timed>, n: nat): State
    requires n <= |ts|
  {
    if n == 0 then s else Step(lib, cfg, After(lib, cfg, s, ts, n - 1), ts[n - 1].op, ts[n - 1].now).1
  }

  predicate Monotone(ts: seq<Timed>) {
    forall i, j | 0 <= i < j < |ts| :: ts[i].now <= ts[j].now
  }

  // ---------- what the guards do to the store ----------

  lemma LimitOthers(s: State, bucket: Bucket, limit: int, now: int)
    ensures RateLimit(s, bucket, limit, now).1.replay == s.replay
    ensures RateLimit(s, bucket, limit, now).1.mailboxes == s.mailboxes
  {
  }

  lemma ChecksReplay(lib: Lib, cfg: Config, s: State, op: Op, now: int)
    requires op.Send?
    ensures var (ok, s1) := SenderAuth(lib, cfg.maxClockSkew, s, op.auth, SignedSend(lib, op), now);
            var s' := SendChecks(lib, cfg, s, op, now).1;
            s'.replay == if op.message == "" || lib.utf8Length(op.message) > cfg.maxMsgBytes then s.replay
                         else s1.replay
  {
    hide EnvelopeOk, SignedSend, SenderAuth, RateLimit;
    var s1 := SenderAuth(lib, cfg.maxClockSkew, s, op.auth, SignedSend(lib, op), now).1;
    var s2 := RateLimit(s1, SendSender(op.auth.pubkey), cfg.maxSendsPerSender, now).1;
    var s3 := RateLimit(s2, SendTarget(op.id), cfg.maxSendsPerTarget, now).1;
    LimitOthers(s1, SendSender(op.auth.pubkey), cfg.maxSendsPerSender, now);
    LimitOthers(s2, SendTarget(op.id), cfg.maxSendsPerTarget, now);
    LimitOthers(s3, SendIp(op.ip), cfg.maxSendsPerIp, now);
  }

  /** Only the sender authentication of a send touches the replay cache. */
  lemma HandleReplay(lib: Lib, cfg: Config, s: State, op: Op, now: int)
    ensures Handle(lib, cfg, s, op, now).1.replay
         == if op.Send? then SendChecks(lib, cfg, s, op, now).1.replay else s.replay
  {
    hide SendChecks, RateLimit, Refreshed, Enqueue, CreateRecord, DeliverRecord, Abs, Put;
    forall s0: State, bucket, limit ensures RateLimit(s0, bucket, limit, now).1.replay == s0.replay {
      LimitOthers(s0, bucket, limit, now);
    }
  }

  /** No request takes a visible replay entry away or shortens its life. */
  lemma HandleKeepsReplay(lib: Lib, cfg: Config, s: State, op: Op, now: int, auth: Auth)
    requires auth in s.replay
    ensures var s' := Handle(lib, cfg, s, op, now).1;
            auth in s'.replay && s'.replay[auth] == s.replay[auth]
  {
    hide Handle, SendChecks, Abs, SignedSend, ReplayTtl;
    HandleReplay(lib, cfg, s, op, now);
    if op.Send? {
      ChecksReplay(lib, cfg, s, op, now);
    }
  }

  /** The sender authentication of a send, as the handler runs it, succeeds. */
  predicate Authenticated(lib: Lib, cfg: Config, s: State, t: Timed) {
    && t.op.Send?
    && !(t.op.message == "" || lib.utf8Length(t.op.message) > cfg.maxMsgBytes)
    && SenderAuth(lib, cfg.maxClockSkew, Visible(s, t.now), t.op.auth, SignedSend(lib, t.op), t.now).0
  }

  lemma SentIsAuthenticated(lib: Lib, cfg: Config, s: State, t: Timed)
    ensures Step(lib, cfg, s, t.op, t.now).0.Sent? ==> Authenticated(lib, cfg, s, t)
  {
    hide EnvelopeOk, Refreshed, Enqueue, CreateRecord, DeliverRecord, Abs, WindowOf, SignedSend, ReplayTtl, RateLimit;
  }

  lemma AuthenticationRecorded(lib: Lib, cfg: Config, s: State, t: Timed)
    requires Authenticated(lib, cfg, s, t)
    ensures var s' := Step(lib, cfg, s, t.op, t.now).1;
            t.op.auth in s'.replay && s'.replay[t.op.auth].expiresAt == t.now + 1000 * ReplayTtl(cfg.maxClockSkew)
  {
    hide Handle, SendChecks, Abs, SignedSend, ReplayTtl, Visible;
    HandleReplay(lib, cfg, Visible(s, t.now), t.op, t.now);
    ChecksReplay(lib, cfg, Visible(s, t.now), t.op, t.now);
  }

  // ---------- replay ----------

  lemma {:induction false} ReplayStays(lib: Lib, cfg: Config, s: State, ts: seq<Timed>, from: nat, n: nat, auth: Auth,
                                       until: int)
    requires from <= n <= |ts|
    requires var s0 := After(lib, cfg, s, ts, from); auth in s0.replay && s0.replay[auth].expiresAt >= until
    requires forall i | from <= i < n :: ts[i].now <= until
    ensures var s1 := After(lib, cfg, s, ts, n); auth in s1.replay && s1.replay[auth].expiresAt >= until
  {
    hide Handle;
    if n > from {
      ReplayStays(lib, cfg, s, ts, from, n - 1, auth, until);
      var now := ts[n - 1].now;
      HandleKeepsReplay(lib, cfg, Visible(After(lib, cfg, s, ts, n - 1), now), ts[n - 1].op, now, auth);
    }
  }

  /** While twice the skew fits the cache's lifetime, no sender triple authenticates twice in any run of requests. */
  lemma AuthenticatesOnce(lib: Lib, cfg: Config, s: State, ts: seq<Timed>, i: nat, j: nat)
    requires Monotone(ts) && i < j < |ts| && ts[i].op.Send? && ts[j].op.Send? && ts[i].op.auth == ts[j].op.auth
    requires 2 * cfg.maxClockSkew <= 1000 * ReplayTtl(cfg.maxClockSkew)
    requires Authenticated(lib, cfg, After(lib, cfg, s, ts, i), ts[i])
    ensures !Authenticated(lib, cfg, After(lib, cfg, s, ts, j), ts[j])
  {
    var auth, until := ts[i].op.auth, ts[i].now + 1000 * ReplayTtl(cfg.maxClockSkew);
    var si, sj := After(lib, cfg, s, ts, i), After(lib, cfg, s, ts, j);
    if ts[j].now > until {
      TooLate(lib, cfg, si, sj, ts[i], ts[j]);
    } else {
      hide ReplayTtl, Step, Authenticated;
      AuthenticationRecorded(lib, cfg, si, ts[i]);
      assert After(lib, cfg, s, ts, i + 1) == Step(lib, cfg, si, ts[i].op, ts[i].now).1;
      ReplayStays(lib, cfg, s, ts, i + 1, j, auth, until);
      NotTwice(lib, cfg, sj, ts[j]);
    }
  }

  /** So no sender triple gets two sends accepted in any run, on whatever mailboxes. */
  lemma SentOnce(lib: Lib, cfg: Config, s: State, ts: seq<Timed>, i: nat, j: nat)
    requires Monotone(ts) && i < j < |ts| && ts[i].op.Send? && ts[j].op.Send? && ts[i].op.auth == ts[j].op.auth
    requires 0 <= cfg.maxClockSkew <= 30_000
    requires Step(lib, cfg, After(lib, cfg, s, ts, i), ts[i].op, ts[i].now).0.Sent?
    ensures !Step(lib, cfg, After(lib, cfg, s, ts, j), ts[j].op, ts[j].now).0.Sent?
  {
    hide Step, Authenticated;
    WindowCondition(cfg.maxClockSkew);
    SentIsAuthenticated(lib, cfg, After(lib, cfg, s, ts, i), ts[i]);
    AuthenticatesOnce(lib, cfg, s, ts, i, j);
    if Step(lib, cfg, After(lib, cfg, s, ts, j), ts[j].op, ts[j].now).0.Sent? {
      SentIsAuthenticated(lib, cfg, After(lib, cfg, s, ts, j), ts[j]);
    }
  }

  lemma TooLate(lib: Lib, cfg: Config, s: State, s': State, t: Timed, t': Timed)
    requires t'.op.Send? && Authenticated(lib, cfg, s, t) && t.op.auth == t'.op.auth
    requires t'.now > t.now + 2 * cfg.maxClockSkew
    ensures !Authenticated(lib, cfg, s', t')
  {
  }

  lemma NotTwice(lib: Lib, cfg: Config, s: State, t: Timed)
    requires t.op.Send? && t.op.auth in s.replay && t.now <= s.replay[t.op.auth].expiresAt
    ensures !Authenticated(lib, cfg, s, t)
  {
  }

  /** The lifetime suffices exactly for skews up to thirty seconds, the default. */
  lemma WindowCondition(skew: int)
    requires skew >= 0
    ensures 2 * skew <= 1000 * ReplayTtl(skew) <==> skew <= 30_000
  {
  }

  /** Beyond that it does not: a verifying triple authenticates at the earliest and again at the latest moment its
      timestamp allows, because its cache entry has expired in between. */
  lemma AuthenticatesTwice(lib: Lib, skew: int, s: State, auth: Auth, message: string)
    requires skew > 30_000 && auth !in s.replay && lib.verify(auth.pubkey, message, auth.signature)
    ensures var at := lib.number(auth.timestamp);
            var (first, s1) := SenderAuth(lib, skew, s, auth, message, at - skew);
            first && SenderAuth(lib, skew, Visible(s1, at + skew), auth, message, at + skew).0
  {
    WindowCondition(skew);
  }

  // ---------- rate limiting ----------

  /** The limit that the handlers pass for each bucket. */
  function LimitOf(cfg: Config, b: Bucket): int {
    match b
    case SendSender(_) => cfg.maxSendsPerSender
    case SendTarget(_) => cfg.maxSendsPerTarget
    case SendIp(_) => cfg.maxSendsPerIp
    case CreateIp(_) => cfg.maxCreatesPerIp
    case ReadIp(_) => 300
    case ExistsIp(_) => 300
    case ReplicateOrigin(_) => cfg.maxReplicatesPerOrigin
  }

  function Count(s: State, key: (Bucket, int)): int {
    if key in s.counters then s.counters[key].value else 0
  }

  /** A counter that has counted at least `count` and, if anything, lives to the end of its window. */
  predicate Counted(s: State, key: (Bucket, int), count: nat) {
    && Count(s, key) >= count
    && (count > 0 ==> key in s.counters && s.counters[key].expiresAt >= (key.1 + 1) * 60_000)
  }

  /** From `s` to `s'` a counter that has counted `count` still has, and if it goes up it is in its own window and was
      below the limit. */
  predicate GrewAt(s: State, s': State, key: (Bucket, int), limit: int, now: int, count: nat) {
    Counted(s, key, count) ==>
      && Counted(s', key, count)
      && (Count(s', key) > Count(s, key) ==> key.1 == WindowOf(now) && count < limit && Counted(s', key, count + 1))
  }

  ghost predicate Grew(s: State, s': State, key: (Bucket, int), limit: int, now: int) {
    Count(s', key) >= Count(s, key) && forall count: nat :: GrewAt(s, s', key, limit, now, count)
  }

  lemma GrewTwice(s: State, t: State, u: State, key: (Bucket, int), limit: int, now: int)
    requires Grew(s, t, key, limit, now) && Grew(t, u, key, limit, now)
    ensures Grew(s, u, key, limit, now)
  {
    hide WindowOf;
    forall count: nat ensures GrewAt(s, u, key, limit, now, count) {
      assert GrewAt(s, t, key, limit, now, count);
      assert GrewAt(t, u, key, limit, now, count);
      assert GrewAt(t, u, key, limit, now, count + 1);
    }
  }

  lemma SameCounters(s: State, s': State, key: (Bucket, int), limit: int, now: int)
    requires s.counters == s'.counters
    ensures Grew(s, s', key, limit, now)
  {
  }

  lemma LimitGrew(cfg: Config, s: State, b: Bucket, now: int, key: (Bucket, int))
    ensures var (ok, s') := RateLimit(s, b, LimitOf(cfg, b), now);
      && Grew(s, s', key, LimitOf(cfg, key.0), now)
      && (ok && key == (b, WindowOf(now)) ==> Count(s', key) > Count(s, key))
  {
    WindowEnds(now);
    hide WindowOf;
  }

  lemma WindowEnds(now: int)
    ensures now + 1000 * (WINDOW + 5) >= (WindowOf(now) + 1) * 60_000
  {
  }

  function ChargedSend(op: Op): set<Bucket>
    requires op.Send?
  {
    {SendSender(op.auth.pubkey), SendTarget(op.id), SendIp(op.ip)}
  }

  lemma ChecksGrew(lib: Lib, cfg: Config, s: State, op: Op, now: int, key: (Bucket, int))
    requires op.Send?
    ensures var (error, s') := SendChecks(lib, cfg, s, op, now);
      && Grew(s, s', key, LimitOf(cfg, key.0), now)
      && (error == None && key.1 == WindowOf(now) && key.0 in ChargedSend(op) ==> Count(s', key) > Count(s, key))
  {
    hide EnvelopeOk, SignedSend, RateLimit, Abs, ReplayTtl, Grew, WindowOf, Count;
    var limit := LimitOf(cfg, key.0);
    var s1 := SenderAuth(lib, cfg.maxClockSkew, s, op.auth, SignedSend(lib, op), now).1;
    SameCounters(s, s, key, limit, now);
    SameCounters(s, s1, key, limit, now);
    var s2 := RateLimit(s1, SendSender(op.auth.pubkey), cfg.maxSendsPerSender, now).1;
    LimitGrew(cfg, s1, SendSender(op.auth.pubkey), now, key);
    GrewTwice(s, s1, s2, key, limit, now);
    var s3 := RateLimit(s2, SendTarget(op.id), cfg.maxSendsPerTarget, now).1;
    LimitGrew(cfg, s2, SendTarget(op.id), now, key);
    GrewTwice(s, s2, s3, key, limit, now);
    var s4 := RateLimit(s3, SendIp(op.ip), cfg.maxSendsPerIp, now).1;
    LimitGrew(cfg, s3, SendIp(op.ip), now, key);
    GrewTwice(s, s3, s4, key, limit, now);
    Climbs(s, s1, s2, s3, s4, key, limit, now);
  }

  lemma Climbs(s: State, s1: State, s2: State, s3: State, s4: State, key: (Bucket, int), limit: int, now: int)
    requires Grew(s, s1, key, limit, now) && Grew(s1, s2, key, limit, now)
    requires Grew(s2, s3, key, limit, now) && Grew(s3, s4, key, limit, now)
    ensures Count(s, key) <= Count(s1, key) <= Count(s2, key) <= Count(s3, key) <= Count(s4, key)
  {
  }

  /** The buckets that a success reply has been charged to. */
  function Charged(op: Op, reply: Reply): set<Bucket> {
    match op
    case Create(_, _, _, _, _, _, ip) => if reply.Created? then {CreateIp(ip)} else {}
    case Send(_, _, _, _, _) => if reply.Sent? then ChargedSend(op) else {}
    case Replicate(_, _, origin, _, _, _, _) => if reply.Replicated? then {ReplicateOrigin(origin)} else {}
    case Read(_, _, _, ip) => if reply.Messages? then {ReadIp(ip)} else {}
    case Exists(_, ip) => if reply.Found? then {ExistsIp(ip)} else {}
  }

  /** A request raises a counter only below its limit, and every success raises the counters it is charged to. */
  lemma HandleGrew(lib: Lib, cfg: Config, s: State, op: Op, now: int, key: (Bucket, int))
    ensures var (reply, s') := Handle(lib, cfg, s, op, now);
      && Grew(s, s', key, LimitOf(cfg, key.0), now)
      && (key.0 in Charged(op, reply) && key.1 == WindowOf(now) ==> Count(s', key) > Count(s, key))
  {
    hide SendChecks, RateLimit, Refreshed, Enqueue, CreateRecord, DeliverRecord, Abs, Grew, WindowOf, Put;
    var s', limit := Handle(lib, cfg, s, op, now).1, LimitOf(cfg, key.0);
    SameCounters(s, s, key, limit, now);
    var s1 := match op
      case Create(_, _, _, _, _, _, ip) => RateLimit(s, CreateIp(ip), cfg.maxCreatesPerIp, now).1
      case Send(_, _, _, _, _) => SendChecks(lib, cfg, s, op, now).1
      case Replicate(_, _, origin, _, _, _, _) =>
        RateLimit(s, ReplicateOrigin(origin), cfg.maxReplicatesPerOrigin, now).1
      case Read(_, _, _, ip) => RateLimit(s, ReadIp(ip), 300, now).1
      case Exists(_, ip) => RateLimit(s, ExistsIp(ip), 300, now).1;
    match op {
      case Create(_, _, _, _, _, _, ip) => LimitGrew(cfg, s, CreateIp(ip), now, key);
      case Send(_, _, _, _, _) => ChecksGrew(lib, cfg, s, op, now, key);
      case Replicate(_, _, origin, _, _, _, _) => LimitGrew(cfg, s, ReplicateOrigin(origin), now, key);
      case Read(_, _, _, ip) => LimitGrew(cfg, s, ReadIp(ip), now, key);
      case Exists(_, ip) => LimitGrew(cfg, s, ExistsIp(ip), now, key);
    }
    if s'.counters == s1.counters {
      SameCounters(s1, s', key, limit, now);
      GrewTwice(s, s1, s', key, limit, now);
    }
  }

  /** Whether request `i` of a run was admitted to bucket `b` in window `w`: it raised the counter. */
  predicate Admitted(lib: Lib, cfg: Config, s: State, ts: seq<Timed>, i: nat, b: Bucket, w: int)
    requires i < |ts|
  {
    Count(After(lib, cfg, s, ts, i + 1), (b, w)) > Count(Visible(After(lib, cfg, s, ts, i), ts[i].now), (b, w))
  }

  /** Admissions to bucket `b` in window `w` among the first `n` requests. */
  function AdmittedIn(lib: Lib, cfg: Config, s: State, ts: seq<Timed>, n: nat, b: Bucket, w: int): nat
    requires n <= |ts|
  {
    if n == 0 then 0
    else AdmittedIn(lib, cfg, s, ts, n - 1, b, w) + (if Admitted(lib, cfg, s, ts, n - 1, b, w) then 1 else 0)
  }

  lemma VisibleCounted(s: State, now: int, key: (Bucket, int), count: nat)
    requires Counted(s, key, count) && (count == 0 || key.1 >= WindowOf(now))
    requires key in s.counters ==> s.counters[key].value >= 0
    ensures Counted(Visible(s, now), key, count)
  {
    assert now < (WindowOf(now) + 1) * 60_000;
  }

  lemma WindowsMonotone(a: int, b: int)
    requires a <= b
    ensures WindowOf(a) <= WindowOf(b)
  {
  }

  function AtLeastZero(x: int): nat {
    if x > 0 then x else 0
  }

  lemma StepAdmits(lib: Lib, cfg: Config, s: State, ts: seq<Timed>, i: nat, b: Bucket, w: int)
    requires i < |ts|
    ensures Grew(Visible(After(lib, cfg, s, ts, i), ts[i].now), After(lib, cfg, s, ts, i + 1), (b, w), LimitOf(cfg, b),
                 ts[i].now)
    ensures var reply := Step(lib, cfg, After(lib, cfg, s, ts, i), ts[i].op, ts[i].now).0;
      b in Charged(ts[i].op, reply) && w == WindowOf(ts[i].now) ==> Admitted(lib, cfg, s, ts, i, b, w)
  {
    hide Handle, Grew, Visible, WindowOf, Charged;
    var before := After(lib, cfg, s, ts, i);
    HandleGrew(lib, cfg, Visible(before, ts[i].now), ts[i].op, ts[i].now, (b, w));
    assert After(lib, cfg, s, ts, i + 1) == Step(lib, cfg, before, ts[i].op, ts[i].now).1;
  }

  /** Until its window is over the counter has seen every admission; afterwards the number is final. */
  lemma {:induction false} WindowInvariant(lib: Lib, cfg: Config, s: State, ts: seq<Timed>, n: nat, b: Bucket, w: int)
    requires Monotone(ts) && n <= |ts| && s.counters == map[]
    ensures AdmittedIn(lib, cfg, s, ts, n, b, w) <= AtLeastZero(LimitOf(cfg, b))
    ensures Count(After(lib, cfg, s, ts, n), (b, w)) >= 0
    ensures n == 0 || WindowOf(ts[n - 1].now) <= w ==>
              Counted(After(lib, cfg, s, ts, n), (b, w), AdmittedIn(lib, cfg, s, ts, n, b, w))
  {
    hide Step, Visible, WindowOf, LimitOf;
    if n > 0 {
      var now, key := ts[n - 1].now, (b, w);
      var before, count := After(lib, cfg, s, ts, n - 1), AdmittedIn(lib, cfg, s, ts, n - 1, b, w);
      WindowInvariant(lib, cfg, s, ts, n - 1, b, w);
      if n > 1 {
        WindowsMonotone(ts[n - 2].now, now);
      }
      StepAdmits(lib, cfg, s, ts, n - 1, b, w);
      VisibleCounted(before, now, key, 0);
      assert GrewAt(Visible(before, now), After(lib, cfg, s, ts, n), key, LimitOf(cfg, b), now, 0);
      if WindowOf(now) <= w {
        VisibleCounted(before, now, key, count);
        assert GrewAt(Visible(before, now), After(lib, cfg, s, ts, n), key, LimitOf(cfg, b), now, count);
      }
    }
  }

  /** At most the limit of requests is admitted to any bucket in any window, over any run of any requests. */
  lemma AdmittedPerWindow(lib: Lib, cfg: Config, s: State, ts: seq<Timed>, b: Bucket, w: int)
    requires Monotone(ts) && s.counters == map[]
    ensures AdmittedIn(lib, cfg, s, ts, |ts|, b, w) <= AtLeastZero(LimitOf(cfg, b))
  {
    WindowInvariant(lib, cfg, s, ts, |ts|, b, w);
  }

  /** Admissions to bucket `b` at a time in `[from, from + 60s)` among the first `n` requests. */
  function AdmittedFrom(lib: Lib, cfg: Config, s: State, ts: seq<Timed>, n: nat, b: Bucket, from: int): nat
    requires n <= |ts|
  {
    if n == 0 then 0
    else
      var now := ts[n - 1].now;
      AdmittedFrom(lib, cfg, s, ts, n - 1, b, from)
      + (if from <= now < from + WINDOW * 1000 && Admitted(lib, cfg, s, ts, n - 1, b, WindowOf(now)) then 1 else 0)
  }

  lemma {:induction false} IntervalInTwoWindows(lib: Lib, cfg: Config, s: State, ts: seq<Timed>, n: nat, b: Bucket,
                                                from: int)
    requires n <= |ts|
    ensures AdmittedFrom(lib, cfg, s, ts, n, b, from)
         <= AdmittedIn(lib, cfg, s, ts, n, b, WindowOf(from)) + AdmittedIn(lib, cfg, s, ts, n, b, WindowOf(from) + 1)
  {
    hide WindowOf, Admitted;
    if n > 0 {
      IntervalInTwoWindows(lib, cfg, s, ts, n - 1, b, from);
      SameOrNextWindow(from, ts[n - 1].now);
    }
  }

  lemma SameOrNextWindow(from: int, now: int)
    ensures from <= now < from + WINDOW * 1000 ==>
              WindowOf(now) == WindowOf(from) || WindowOf(now) == WindowOf(from) + 1
  {
  }

  /** And at most twice the limit is admitted in any half-open interval of one window length, whatever later checks
      say. */
  lemma AdmittedPerInterval(lib: Lib, cfg: Config, s: State, ts: seq<Timed>, b: Bucket, from: int)
    requires Monotone(ts) && s.counters == map[]
    ensures AdmittedFrom(lib, cfg, s, ts, |ts|, b, from) <= 2 * AtLeastZero(LimitOf(cfg, b))
  {
    IntervalInTwoWindows(lib, cfg, s, ts, |ts|, b, from);
    AdmittedPerWindow(lib, cfg, s, ts, b, WindowOf(from));
    AdmittedPerWindow(lib, cfg, s, ts, b, WindowOf(from) + 1);
  }

  /** Successes charged to bucket `b` in the same interval. */
  function ServedFrom(lib: Lib, cfg: Config, s: State, ts: seq<Timed>, n: nat, b: Bucket, from: int): nat
    requires n <= |ts|
  {
    if n == 0 then 0
    else
      var t := ts[n - 1];
      var reply := Step(lib, cfg, After(lib, cfg, s, ts, n - 1), t.op, t.now).0;
      ServedFrom(lib, cfg, s, ts, n - 1, b, from)
      + (if from <= t.now < from + WINDOW * 1000 && b in Charged(t.op, reply) then 1 else 0)
  }

  /** Whatever is served was admitted. */
  lemma {:induction false} ServedIsAdmitted(lib: Lib, cfg: Config, s: State, ts: seq<Timed>, n: nat, b: Bucket,
                                            from: int)
    requires n <= |ts|
    ensures ServedFrom(lib, cfg, s, ts, n, b, from) <= AdmittedFrom(lib, cfg, s, ts, n, b, from)
  {
    hide Step, WindowOf, Admitted, Charged, Grew;
    if n > 0 {
      ServedIsAdmitted(lib, cfg, s, ts, n - 1, b, from);
      StepAdmits(lib, cfg, s, ts, n - 1, b, WindowOf(ts[n - 1].now));
    }
  }

  lemma ServedPerInterval(lib: Lib, cfg: Config, s: State, ts: seq<Timed>, b: Bucket, from: int)
    requires Monotone(ts) && s.counters == map[]
    ensures ServedFrom(lib, cfg, s, ts, |ts|, b, from) <= 2 * AtLeastZero(LimitOf(cfg, b))
  {
    ServedIsAdmitted(lib, cfg, s, ts, |ts|, b, from);
    AdmittedPerInterval(lib, cfg, s, ts, b, from);
  }

  // ---------- envelope depth ----------

  /** How deeply objects and arrays are nested below a value. */
  function Nesting(v: Json): nat
    decreases v, 0
  {
    match v
    case JArray(items) => ItemsNesting(items)
    case JObject(fields) => FieldsNesting(fields)
    case _ => 0
  }

  function ItemsNesting(items: seq<Json>): nat
    decreases items, 0
  {
    if items == [] then 0
    else
      var first, rest := 1 + Nesting(items[0]), ItemsNesting(items[1..]);
      if first > rest then first else rest
  }

  function FieldsNesting(fields: seq<Property>): nat
    decreases fields, 0
  {
    if fields == [] then 0
    else
      var property := fields[0];
      var first, rest := 1 + Nesting(property.value), FieldsNesting(fields[1..]);
      if Field(fields[1..], property.name).None? && first > rest then first else rest
  }

  /** The depth check with its cut-offs refuses exactly the values nested more than eight levels deep. */
  lemma {:induction false} DepthExact(v: Json, depth: nat)
    requires depth <= MAX_JSON_DEPTH
    ensures JsonDepth(v, depth) <= MAX_JSON_DEPTH <==> depth + Nesting(v) <= MAX_JSON_DEPTH
    ensures JsonDepth(v, depth) <= MAX_JSON_DEPTH ==> JsonDepth(v, depth) == depth + Nesting(v)
    decreases v, 0
  {
    match v {
      case JArray(items) => ItemsExact(items, depth, depth);
      case JObject(fields) => FieldsExact(fields, depth, depth);
      case _ =>
    }
  }

  lemma {:induction false} ItemsExact(items: seq<Json>, depth: nat, max: nat)
    requires depth <= MAX_JSON_DEPTH && depth <= max <= MAX_JSON_DEPTH
    ensures var d := ItemsDepth(items, depth, max);
            var n := depth + ItemsNesting(items);
            && (d <= MAX_JSON_DEPTH <==> n <= MAX_JSON_DEPTH)
            && (d <= MAX_JSON_DEPTH ==> d == if n > max then n else max)
    decreases items, 0
  {
    if items != [] {
      var d := JsonDepth(items[0], depth + 1);
      if depth < MAX_JSON_DEPTH {
        DepthExact(items[0], depth + 1);
        var max' := if d > max then d else max;
        if max' <= MAX_JSON_DEPTH {
          ItemsExact(items[1..], depth, max');
        }
      }
    }
  }

  lemma {:induction false} FieldsExact(fields: seq<Property>, depth: nat, max: nat)
    requires depth <= MAX_JSON_DEPTH && depth <= max <= MAX_JSON_DEPTH
    ensures var d := FieldsDepth(fields, depth, max);
            var n := depth + FieldsNesting(fields);
            && (d <= MAX_JSON_DEPTH <==> n <= MAX_JSON_DEPTH)
            && (d <= MAX_JSON_DEPTH ==> d == if n > max then n else max)
    decreases fields, 0
  {
    if fields != [] {
      var property := fields[0];
      var d := JsonDepth(property.value, depth + 1);
      if Field(fields[1..], property.name).Some? {
        FieldsExact(fields[1..], depth, max);
      } else if depth < MAX_JSON_DEPTH {
        DepthExact(property.value, depth + 1);
        var max' := if d > max then d else max;
        if max' <= MAX_JSON_DEPTH {
          FieldsExact(fields[1..], depth, max');
        }
      }
    }
  }
}
