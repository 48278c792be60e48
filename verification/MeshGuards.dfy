/** The outcome of every request to the mesh, each refusal for its reason, and the records that accepted ones leave. */
module MeshGuards {
  import opened Bytes
  import opened KeyValue
  import opened Router
  import opened Mesh
  import opened MeshRuns
  import ProofOfWork

  /** The reply to a challenge request is the challenge that is stored: the configured difficulty, two minutes. */
  lemma IssueExactly(env: Env, s: State, op: Op, now: int)
    requires op.Issue?
    ensures var (reply, s') := Step(env, s, op, now);
      && s'.registered == s.registered && s'.version == s.version
      && if !op.admitted then reply == Refused(429) && s'.nonces == Purge(s.nonces, now)
         else
           && reply == Issued(op.nonce, Challenge(env.difficulty, now + 120_000))
           && s'.nonces == Purge(s.nonces, now)[op.nonce := Kept(reply.challenge, now + 125_000)]
  {
  }

  predicate Near(a: int, b: int) {
    a - 60_000 <= b <= a + 60_000
  }

  /** Why a registration is refused, checks in order, all on the state before it. */
  lemma RegisterStatus(env: Env, s: State, op: Op, now: int)
    requires op.Register?
    ensures var reply := Step(env, s, op, now).0;
      if !op.admitted then reply == Refused(429)
      else if op.nonce !in s.nonces || now > s.nonces[op.nonce].expiresAt
              || now > s.nonces[op.nonce].value.expiresAt
              || ProofOfWork.LeadingZeros(env.hash(op.nonce + ":" + op.url + ":" + op.solution))
                 < s.nonces[op.nonce].value.difficulty
              || !Near(op.timestamp, now) || !op.signed
      then reply == Refused(401)
      else if op.url !in Urls(s.registered) && |s.registered| >= env.maxShards then reply == Refused(403)
      else reply == Registered(if op.url in Urls(s.registered) then |s.registered| else |s.registered| + 1,
                               (if s.version.Some? then s.version.value else env.defaultVersion) + 1)
  {
  }

  /** What a registration that is accepted leaves: a known URL keeps its place and its registration time and gets the
      key, this update time and no previous key; a new one goes to the end, registered now. */
  lemma RegisterStores(env: Env, s: State, op: Op, now: int)
    requires op.Register? && Step(env, s, op, now).0.Registered?
    ensures var s' := Step(env, s, op, now).1;
      && s'.version == Some((if s.version.Some? then s.version.value else env.defaultVersion) + 1)
      && s'.nonces == Purge(s.nonces, now) - {op.nonce}
      && if op.url !in Urls(s.registered)
         then s'.registered == s.registered + [Record(op.url, op.pubkey, now, None, None)]
         else
           && |s'.registered| == |s.registered|
           && forall i | 0 <= i < |s.registered| ::
                s'.registered[i] == if s.registered[i].url != op.url then s.registered[i]
                                    else Record(op.url, op.pubkey, s.registered[i].registeredAt, Some(now), None)
  {
  }

  /** Why a rotation is refused, and what it leaves when it is not: the record of the URL, and no other, has the new
      key, remembers the old one, and is updated now. */
  lemma RotateExactly(env: Env, s: State, op: Op, now: int)
    requires op.Rotate? && Distinct(Urls(s.registered))
    ensures var (reply, s') := Step(env, s, op, now);
      var version := (if s.version.Some? then s.version.value else env.defaultVersion) + 1;
      && s'.nonces == Purge(s.nonces, now)
      && (!reply.Rotated? ==> s'.registered == s.registered && s'.version == s.version)
      && if op.oldKey == op.newKey then reply == Refused(400)
         else if !Near(op.timestamp, now) then reply == Refused(401)
         else if op.url !in Urls(s.registered) then reply == Refused(404)
         else if (exists i :: 0 <= i < |s.registered| && s.registered[i].url == op.url
                              && s.registered[i].pubkey != op.oldKey)
                 || !op.oldSigned || !op.newSigned
         then reply == Refused(401)
         else
           && reply == Rotated(version) && s'.version == Some(version) && |s'.registered| == |s.registered|
           && forall i | 0 <= i < |s.registered| ::
                s'.registered[i] == if s.registered[i].url != op.url then s.registered[i]
                                    else Record(op.url, op.newKey, s.registered[i].registeredAt, Some(now),
                                                Some(op.oldKey))
  {
    forall i | 0 <= i < |s.registered| && s.registered[i].url == op.url
      ensures Find(s.registered, op.url) == Some(s.registered[i])
    {
      FindUnique(s.registered, i);
    }
    if op.url in Urls(s.registered) {
      var i :| 0 <= i < |Urls(s.registered)| && Urls(s.registered)[i] == op.url;
      assert s.registered[i].url == op.url;
    }
    hide Find, Distinct, Urls;
  }
}
