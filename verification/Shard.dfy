/** The mailbox shard of shard/worker.js as a state machine over a key-value store with expiring records.
    Every request is one atomic step at a clock reading in milliseconds. */
module Shard {
  import opened Bytes
  import opened KeyValue

  datatype Entry = Entry(id: string, time: int, message: string, sender: string)

  /** The record behind `mailbox:{id}`. */
  datatype Mailbox = Mailbox(readSecretHash: string, clientPubkey: Option<string>, messages: seq<Entry>,
                             createdAt: int, enqueuedAt: Option<int>, replicas: seq<string>)

  datatype Config = Config(maxMessages: int, maxMsgBytes: int, ttlSeconds: int, mailboxTtlSeconds: int,
                           maxClockSkew: int, maxSendsPerSender: int, maxSendsPerTarget: int, maxSendsPerIp: int,
                           maxCreatesPerIp: int, maxReplicatesPerOrigin: int)

  // ---------- requests ----------

  /** The counters behind `rl:{bucket}:{window}`. */
  datatype Bucket =
    | SendSender(pubkey: string) | SendTarget(mailbox: string) | SendIp(ip: string) | CreateIp(ip: string)
    | ReadIp(ip: string) | ExistsIp(ip: string) | ReplicateOrigin(pubkey: string)

  datatype Auth = Auth(pubkey: string, timestamp: string, signature: string)

  datatype Json = JNull | JBool(b: bool) | JNumber | JString(s: string) | JArray(items: seq<Json>)
                | JObject(fields: seq<Property>)

  datatype Property = Property(name: string, value: Json)

  /** The library calls: Ed25519 verification, SHA-256 in hex, `JSON.parse`, `Number` on digits, and UTF-8 length. */
  datatype Lib = Lib(verify: (string, string, string) -> bool, sha: string -> string, parse: string -> Option<Json>,
                     number: string -> int, utf8Length: string -> nat)

  datatype Op =
    | Create(id: string, hash: string, capExp: int, capSigned: bool, client: Option<string>, urls: seq<string>,
             ip: string)
    | Send(id: string, message: string, auth: Auth, ip: string, freshId: string)
    | Replicate(id: string, entry: Entry, origin: string, timestamp: int, known: bool, signed: bool, urls: seq<string>)
    | Read(id: string, secret: string, peek: bool, ip: string)
    | Exists(id: string, ip: string)

  datatype Reply =
    | Refused(status: nat)
    | Created(isNew: bool)
    | Sent(entry: Entry, queued: nat)
    | Replicated(deduped: bool)
    | Messages(messages: seq<Entry>, consumed: bool)
    | Found

  datatype State = State(mailboxes: map<string, Kept<Mailbox>>, replay: map<Auth, Kept<bool>>,
                         counters: map<(Bucket, int), Kept<int>>)

  // ---------- guards ----------

  const WINDOW: int := 60

  function WindowOf(now: int): int {
    now / (WINDOW * 1000)
  }

  /** `rateLimit` with the sixty-second window every caller uses. */
  function RateLimit(s: State, bucket: Bucket, limit: int, now: int): (bool, State) {
    var key := (bucket, WindowOf(now));
    var current := if key in s.counters then s.counters[key].value else 0;
    if current >= limit then (false, s)
    else (true, s.(counters := Put(s.counters, key, current + 1, now, WINDOW + 5)))
  }

  function ReplayTtl(skew: int): int {
    var seconds := (skew + 999) / 1000; // Math.ceil(skew / 1000)
    if seconds >= 60 then seconds else 60
  }

  function Abs(x: int): int {
    if x >= 0 then x else -x
  }

  /** `verifySenderAuth`: the timestamp window, the replay cache, the signature; the triple is cached on success. */
  function SenderAuth(lib: Lib, skew: int, s: State, auth: Auth, signedMessage: string, now: int): (bool, State) {
    if Abs(now - lib.number(auth.timestamp)) > skew then (false, s)
    else if auth in s.replay then (false, s)
    else if !lib.verify(auth.pubkey, signedMessage, auth.signature) then (false, s)
    else (true, s.(replay := Put(s.replay, auth, true, now, ReplayTtl(skew))))
  }

  const MAX_JSON_DEPTH: nat := 8

  /** `jsonDepth`: stops descending below the limit. */
  function JsonDepth(v: Json, depth: nat): (d: nat)
    decreases v, 0
  {
    if depth > MAX_JSON_DEPTH then depth
    else match v
      case JArray(items) => ItemsDepth(items, depth, depth)
      case JObject(fields) => FieldsDepth(fields, depth, depth)
      case _ => depth
  }

  function ItemsDepth(items: seq<Json>, depth: nat, max: nat): nat
    decreases items, 0
  {
    if items == [] || max > MAX_JSON_DEPTH then max
    else
      var d := JsonDepth(items[0], depth + 1);
      ItemsDepth(items[1..], depth, if d > max then d else max)
  }

  /** Over `Object.values`: a field that a later one of the same name overrides is not among them. */
  function FieldsDepth(fields: seq<Property>, depth: nat, max: nat): nat
    decreases fields, 0
  {
    if fields == [] || max > MAX_JSON_DEPTH then max
    else
      var first := fields[0];
      if Field(fields[1..], first.name).Some? then FieldsDepth(fields[1..], depth, max)
      else
        var d := JsonDepth(first.value, depth + 1);
        FieldsDepth(fields[1..], depth, if d > max then d else max)
  }

  /** The last value of a field, as a JavaScript object keeps it. */
  function Field(fields: seq<Property>, name: string): Option<Json> {
    if fields == [] then None
    else match Field(fields[1..], name)
      case Some(v) => Some(v)
      case None => if fields[0].name == name then Some(fields[0].value) else None
  }

  predicate KnownType(t: string) {
    t == "offer" || t == "answer" || t == "message" || t == "finish"
  }

  /** `validateEnvelopeShape`; a message that is not JSON is opaque ciphertext and passes. */
  predicate EnvelopeOk(lib: Lib, message: string) {
    match lib.parse(message)
    case None => true
    case Some(v) =>
      && (v.JArray? || v.JObject?)
      && (v.JObject? ==>
            match Field(v.fields, "type") case Some(JString(t)) => KnownType(t) case _ => true)
      && JsonDepth(v, 0) <= MAX_JSON_DEPTH
  }

  // ---------- what a request does to one record ----------

  predicate Stale(enqueuedAt: Option<int>, ttlSeconds: int, now: int) {
    enqueuedAt.Some? && (now - enqueuedAt.value) / 1000 >= ttlSeconds
  }

  /** The record with a stale backlog dropped. */
  function Refreshed(m: Mailbox, cfg: Config, now: int): Mailbox {
    if Stale(m.enqueuedAt, cfg.ttlSeconds, now) then m.(messages := [], enqueuedAt := None) else m
  }

  function Enqueue(m: Mailbox, e: Entry, now: int): Mailbox {
    m.(messages := m.messages + [e], enqueuedAt := if m.enqueuedAt == None then Some(now) else m.enqueuedAt)
  }

  function CreateRecord(before: Option<Mailbox>, hash: string, client: Option<string>, urls: seq<string>, now: int)
    : Mailbox
  {
    match before
    case Some(m) =>
      m.(readSecretHash := hash, clientPubkey := if client.Some? then client else m.clientPubkey,
         replicas := if urls != [] then urls else m.replicas)
    case None => Mailbox(hash, client, [], now, None, urls)
  }

  predicate Holds(m: Mailbox, id: string) {
    exists k :: 0 <= k < |m.messages| && m.messages[k].id == id
  }

  /** A replica that never saw `/create` builds a shell record; an entry whose id is already queued changes nothing. */
  function DeliverRecord(before: Option<Mailbox>, e: Entry, urls: seq<string>, now: int): (Mailbox, bool) {
    var m := match before case Some(m) => m case None => Mailbox("", None, [], now, None, urls);
    if Holds(m, e.id) then (m, true) else (Enqueue(m, e, now), false)
  }

  // ---------- the handlers ----------

  function Lookup(s: State, id: string): Option<Mailbox> {
    if id in s.mailboxes then Some(s.mailboxes[id].value) else None
  }

  function Save(cfg: Config, s: State, id: string, m: Mailbox, now: int): State {
    s.(mailboxes := Put(s.mailboxes, id, m, now, cfg.mailboxTtlSeconds))
  }

  function HandleCreate(cfg: Config, s: State, op: Op, now: int): (Reply, State)
    requires op.Create?
  {
    if now > op.capExp || !op.capSigned then (Refused(401), s)
    else
      var (ok, s1) := RateLimit(s, CreateIp(op.ip), cfg.maxCreatesPerIp, now);
      if !ok then (Refused(429), s1)
      else
        var before := Lookup(s1, op.id);
        (Created(before == None), Save(cfg, s1, op.id, CreateRecord(before, op.hash, op.client, op.urls, now), now))
  }

  function SignedSend(lib: Lib, op: Op): string
    requires op.Send?
  {
    "send:" + op.auth.pubkey + ":" + op.id + ":" + op.auth.timestamp + ":" + lib.sha(op.message)
  }

  /** Everything `/send` checks before it looks at the mailbox, with the cache and counter updates those checks make. */
  function SendChecks(lib: Lib, cfg: Config, s: State, op: Op, now: int): (Option<nat>, State)
    requires op.Send?
  {
    if op.message == "" || lib.utf8Length(op.message) > cfg.maxMsgBytes then (Some(400), s)
    else
      var (authOk, s1) := SenderAuth(lib, cfg.maxClockSkew, s, op.auth, SignedSend(lib, op), now);
      if !authOk then (Some(401), s1)
      else
        var (senderOk, s2) := RateLimit(s1, SendSender(op.auth.pubkey), cfg.maxSendsPerSender, now);
        if !senderOk then (Some(429), s2)
        else
          var (targetOk, s3) := RateLimit(s2, SendTarget(op.id), cfg.maxSendsPerTarget, now);
          if !targetOk then (Some(429), s3)
          else
            var (ipOk, s4) := RateLimit(s3, SendIp(op.ip), cfg.maxSendsPerIp, now);
            if !ipOk then (Some(429), s4)
            else if !EnvelopeOk(lib, op.message) then (Some(400), s4)
            else (None, s4)
  }

  function HandleSend(lib: Lib, cfg: Config, s: State, op: Op, now: int): (Reply, State)
    requires op.Send?
  {
    var (error, s1) := SendChecks(lib, cfg, s, op, now);
    if error.Some? then (Refused(error.value), s1)
    else match Lookup(s1, op.id)
      case None => (Refused(404), s1)
      case Some(stored) =>
        var m := Refreshed(stored, cfg, now);
        if |m.messages| >= cfg.maxMessages then (Refused(429), s1)
        else
          var e := Entry(op.freshId, now, op.message, op.auth.pubkey);
          var m' := Enqueue(m, e, now);
          (Sent(e, |m'.messages|), Save(cfg, s1, op.id, m', now))
  }

  function HandleReplicate(cfg: Config, s: State, op: Op, now: int): (Reply, State)
    requires op.Replicate?
  {
    if Abs(now - op.timestamp) > 60_000 then (Refused(401), s)
    else
      var (ok, s1) := RateLimit(s, ReplicateOrigin(op.origin), cfg.maxReplicatesPerOrigin, now);
      if !ok then (Refused(429), s1)
      else if !op.known || !op.signed then (Refused(401), s1)
      else
        var (m, deduped) := DeliverRecord(Lookup(s1, op.id), op.entry, op.urls, now);
        if deduped then (Replicated(true), s1) else (Replicated(false), Save(cfg, s1, op.id, m, now))
  }

  function HandleRead(lib: Lib, cfg: Config, s: State, op: Op, now: int): (Reply, State)
    requires op.Read?
  {
    var (ok, s1) := RateLimit(s, ReadIp(op.ip), 300, now);
    if !ok then (Refused(429), s1)
    else match Lookup(s1, op.id)
      case None => (Refused(404), s1)
      case Some(stored) =>
        if lib.sha(op.secret) != stored.readSecretHash then (Refused(401), s1)
        else
          var m := Refreshed(stored, cfg, now);
          var m' := if op.peek then m else m.(messages := [], enqueuedAt := None);
          (Messages(m.messages, !op.peek), Save(cfg, s1, op.id, m', now))
  }

  function HandleExists(s: State, op: Op, now: int): (Reply, State)
    requires op.Exists?
  {
    var (ok, s1) := RateLimit(s, ExistsIp(op.ip), 300, now);
    if !ok then (Refused(429), s1)
    else (if Lookup(s1, op.id) == None then Refused(404) else Found, s1)
  }

  function Handle(lib: Lib, cfg: Config, s: State, op: Op, now: int): (Reply, State) {
    match op
    case Create(_, _, _, _, _, _, _) => HandleCreate(cfg, s, op, now)
    case Send(_, _, _, _, _) => HandleSend(lib, cfg, s, op, now)
    case Replicate(_, _, _, _, _, _, _) => HandleReplicate(cfg, s, op, now)
    case Read(_, _, _, _) => HandleRead(lib, cfg, s, op, now)
    case Exists(_, _) => HandleExists(s, op, now)
  }

  /** What is left of the store when the clock reads `now`. */
  function Visible(s: State, now: int): State {
    State(Purge(s.mailboxes, now), Purge(s.replay, now), Purge(s.counters, now))
  }

  /** One request: expired records are gone, then the handler runs. */
  function Step(lib: Lib, cfg: Config, s: State, op: Op, now: int): (Reply, State) {
    Handle(lib, cfg, Visible(s, now), op, now)
  }
}
