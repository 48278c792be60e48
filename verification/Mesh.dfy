/** Mesh growth in router/router.js: challenges, shard registration, key rotation and the merged shard list. */
module Mesh {
  import opened Bytes
  import opened KeyValue
  import opened Router
  import ProofOfWork

  datatype Record = Record(url: Url, pubkey: string, registeredAt: int, updatedAt: Option<int>,
                           previous: Option<string>)

  datatype Challenge = Challenge(difficulty: int, expiresAt: int)

  /** The variables of the worker; `base` is the operator's list, which growth leaves alone. */
  datatype Env = Env(base: seq<Url>, difficulty: int, maxShards: int, defaultVersion: int, hash: string -> seq<byte>)

  datatype State = State(nonces: map<string, Kept<Challenge>>, registered: seq<Record>, version: Option<int>)

  /** `admitted` is the rate limiter's verdict and `signed` a signature's; keys are in lower case. */
  datatype Op =
    | Issue(admitted: bool, nonce: string)
    | Register(url: Url, pubkey: string, nonce: string, solution: string, timestamp: int, admitted: bool, signed: bool)
    | Rotate(url: Url, oldKey: string, newKey: string, timestamp: int, oldSigned: bool, newSigned: bool)

  datatype Reply =
    | Refused(status: nat)
    | Issued(nonce: string, challenge: Challenge)
    | Registered(shards: nat, version: int)
    | Rotated(version: int)

  // ---------- the shard list ----------

  function Urls(records: seq<Record>): (urls: seq<Url>)
    ensures |urls| == |records|
  {
    seq(|records|, i requires 0 <= i < |records| => records[i].url)
  }

  /** The base list followed by every registered URL that is not there yet. */
  function Merged(base: seq<Url>, registered: seq<Url>): seq<Url> {
    if registered == [] then base
    else
      var before, last := Merged(base, registered[..|registered| - 1]), registered[|registered| - 1];
      if last in before then before else before + [last]
  }

  // ---------- the handlers ----------

  const CHALLENGE_TTL: int := 120
  const SKEW: int := 60_000

  function Version(env: Env, s: State): int {
    if s.version.Some? then s.version.value else env.defaultVersion
  }

  /** Every accepted change stores the records and the next table version. */
  function Publish(env: Env, s: State, registered: seq<Record>): State {
    s.(registered := registered, version := Some(Version(env, s) + 1))
  }

  function Find(records: seq<Record>, url: Url): (found: Option<Record>)
    ensures found.Some? ==> found.value in records && found.value.url == url
    ensures found.None? <==> url !in Urls(records)
  {
    if records == [] then None
    else if records[0].url == url then
      assert Urls(records)[0] == url;
      Some(records[0])
    else
      assert Urls(records) == [records[0].url] + Urls(records[1..]);
      Find(records[1..], url)
  }

  function WithKey(r: Record, pubkey: string, now: int, previous: Option<string>): Record {
    Record(r.url, pubkey, r.registeredAt, Some(now), previous)
  }

  function Rekeyed(records: seq<Record>, url: Url, pubkey: string, now: int, previous: Option<string>): (r: seq<Record>)
    ensures Urls(r) == Urls(records)
  {
    seq(|records|, i requires 0 <= i < |records| =>
      if records[i].url == url then WithKey(records[i], pubkey, now, previous) else records[i])
  }

  function HandleIssue(env: Env, s: State, op: Op, now: int): (Reply, State)
    requires op.Issue?
  {
    if !op.admitted then (Refused(429), s)
    else
      var challenge := Challenge(env.difficulty, now + CHALLENGE_TTL * 1000);
      (Issued(op.nonce, challenge), s.(nonces := Put(s.nonces, op.nonce, challenge, now, CHALLENGE_TTL + 5)))
  }

  function Work(env: Env, nonce: string, url: Url, solution: string): seq<byte> {
    env.hash(nonce + ":" + url + ":" + solution)
  }

  /** The challenge part of a registration; a spent nonce is gone whatever the later checks say. */
  function Redeem(env: Env, s: State, op: Op, now: int): (Option<nat>, State)
    requires op.Register?
  {
    if op.nonce !in s.nonces then (Some(401), s)
    else
      var challenge := s.nonces[op.nonce].value;
      if now > challenge.expiresAt then (Some(401), s)
      else if ProofOfWork.LeadingZeros(Work(env, op.nonce, op.url, op.solution)) < challenge.difficulty
      then (Some(401), s)
      else (None, s.(nonces := s.nonces - {op.nonce}))
  }

  function Distance(a: int, b: int): int {
    if a >= b then a - b else b - a
  }

  function HandleRegister(env: Env, s: State, op: Op, now: int): (Reply, State)
    requires op.Register?
  {
    if !op.admitted then (Refused(429), s)
    else
      var (error, s1) := Redeem(env, s, op, now);
      if error.Some? then (Refused(error.value), s1)
      else if Distance(now, op.timestamp) > SKEW || !op.signed then (Refused(401), s1)
      else
        var known := Find(s1.registered, op.url);
        if known == None && |s1.registered| >= env.maxShards then (Refused(403), s1)
        else
          var updated := if known.Some? then Rekeyed(s1.registered, op.url, op.pubkey, now, None)
                         else s1.registered + [Record(op.url, op.pubkey, now, None, None)];
          (Registered(|updated|, Version(env, s1) + 1), Publish(env, s1, updated))
  }

  function HandleRotate(env: Env, s: State, op: Op, now: int): (Reply, State)
    requires op.Rotate?
  {
    if op.oldKey == op.newKey then (Refused(400), s)
    else if Distance(now, op.timestamp) > SKEW then (Refused(401), s)
    else match Find(s.registered, op.url)
      case None => (Refused(404), s)
      case Some(record) =>
        if record.pubkey != op.oldKey || !op.oldSigned || !op.newSigned then (Refused(401), s)
        else
          (Rotated(Version(env, s) + 1),
           Publish(env, s, Rekeyed(s.registered, op.url, op.newKey, now, Some(op.oldKey))))
  }

  function Step(env: Env, s: State, op: Op, now: int): (Reply, State) {
    var visible := s.(nonces := Purge(s.nonces, now));
    match op
    case Issue(_, _) => HandleIssue(env, visible, op, now)
    case Register(_, _, _, _, _, _, _) => HandleRegister(env, visible, op, now)
    case Rotate(_, _, _, _, _, _) => HandleRotate(env, visible, op, now)
  }

  // ---------- the worker ----------

  /** The handlers as they run against the admin store. */
  class Admin {
    const env: Env
    var nonces: map<string, Kept<Challenge>>
    var registered: seq<Record>
    var version: Option<int>

    constructor (env: Env)
      ensures this.env == env && Store() == State(map[], [], None)
    {
      this.env := env;
      nonces, registered, version := map[], [], None;
    }

    function Store(): State
      reads this
    {
      State(nonces, registered, version)
    }

    /** `getShardUrls` */
    method GetShardUrls() returns (merged: seq<Url>)
      ensures merged == Merged(env.base, Urls(registered))
    {
      merged := env.base;
      for i := 0 to |registered|
        invariant merged == Merged(env.base, Urls(registered)[..i])
      {
        assert Urls(registered)[..i + 1][..i] == Urls(registered)[..i];
        var url := registered[i].url;
        if url !in merged {
          merged := merged + [url];
        }
      }
      assert Urls(registered)[..|registered|] == Urls(registered);
    }

    method PowChallenge(op: Op, now: int) returns (reply: Reply)
      requires op.Issue?
      modifies this
      ensures (reply, Store()) == HandleIssue(env, old(Store()), op, now)
    {
      if !op.admitted {
        return Refused(429);
      }
      var challenge := Challenge(env.difficulty, now + CHALLENGE_TTL * 1000);
      nonces := Put(nonces, op.nonce, challenge, now, CHALLENGE_TTL + 5);
      return Issued(op.nonce, challenge);
    }

    method PutRecords(updated: seq<Record>) returns (current: int)
      modifies this
      ensures current == Version(env, old(Store())) && Store() == Publish(env, old(Store()), updated)
    {
      registered := updated;
      current := if version.Some? then version.value else env.defaultVersion;
      version := Some(current + 1);
    }

    method RegisterShard(op: Op, now: int) returns (reply: Reply)
      requires op.Register?
      modifies this
      ensures (reply, Store()) == HandleRegister(env, old(Store()), op, now)
    {
      if !op.admitted {
        return Refused(429);
      }
      if op.nonce !in nonces {
        return Refused(401);
      }
      var challenge := nonces[op.nonce].value;
      if now > challenge.expiresAt {
        return Refused(401);
      }
      var bits := ProofOfWork.LeadingZeroBits(env.hash(op.nonce + ":" + op.url + ":" + op.solution));
      if bits < challenge.difficulty {
        return Refused(401);
      }
      nonces := nonces - {op.nonce};
      if Distance(now, op.timestamp) > SKEW || !op.signed {
        return Refused(401);
      }
      var already := Find(registered, op.url);
      if already.None? && |registered| >= env.maxShards {
        return Refused(403);
      }
      var updated := registered + [Record(op.url, op.pubkey, now, None, None)];
      if already.Some? {
        updated := Rekeyed(registered, op.url, op.pubkey, now, None);
      }
      var current := PutRecords(updated);
      return Registered(|updated|, current + 1);
    }

    method RotateShardKey(op: Op, now: int) returns (reply: Reply)
      requires op.Rotate?
      modifies this
      ensures (reply, Store()) == HandleRotate(env, old(Store()), op, now)
    {
      if op.oldKey == op.newKey {
        return Refused(400);
      }
      if Distance(now, op.timestamp) > SKEW {
        return Refused(401);
      }
      var record := Find(registered, op.url);
      if record.None? {
        return Refused(404);
      }
      if record.value.pubkey != op.oldKey || !op.oldSigned || !op.newSigned {
        return Refused(401);
      }
      var current := PutRecords(Rekeyed(registered, op.url, op.newKey, now, Some(op.oldKey)));
      return Rotated(current + 1);
    }

    method Request(op: Op, now: int) returns (reply: Reply)
      modifies this
      ensures (reply, Store()) == Step(env, old(Store()), op, now)
    {
      nonces := Purge(nonces, now);
      match op {
        case Issue(_, _) => reply := PowChallenge(op, now);
        case Register(_, _, _, _, _, _, _) => reply := RegisterShard(op, now);
        case Rotate(_, _, _, _, _, _) => reply := RotateShardKey(op, now);
      }
    }
  }
}
