/** What every run of challenges, registrations and rotations keeps. */
module MeshRuns {
  import opened Bytes
  import opened KeyValue
  import opened Router
  import opened Mesh
  import ProofOfWork

  // ---------- one step ----------

  predicate Accepted(reply: Reply) {
    reply.Registered? || reply.Rotated?
  }

  function Larger(a: int, b: int): int {
    if a >= b then a else b
  }

  /** An accepted registration or rotation raises the version by one and leaves the registered URLs equal or longer by
      the new one at the end; a request that is not accepted leaves records and version alone. */
  lemma StepGrows(env: Env, s: State, op: Op, now: int)
    requires Distinct(Urls(s.registered))
    ensures var (reply, s') := Step(env, s, op, now);
      && Distinct(Urls(s'.registered))
      && (!Accepted(reply) ==> s'.registered == s.registered && s'.version == s.version)
      && (Accepted(reply) ==> s'.version == Some(Version(env, s) + 1))
      && (Urls(s'.registered) == Urls(s.registered)
          || (op.Register? && Accepted(reply) && op.url !in Urls(s.registered) && |s.registered| < env.maxShards
              && Urls(s'.registered) == Urls(s.registered) + [op.url]))
  {
    if op.Register? {
      UrlsAppend(s.registered, Record(op.url, op.pubkey, now, None, None));
      DistinctAppend(Urls(s.registered), op.url);
    }
    hide Urls, Distinct;
  }

  lemma UrlsAppend(records: seq<Record>, r: Record)
    ensures Urls(records + [r]) == Urls(records) + [r.url]
  {
  }

  lemma DistinctAppend(us: seq<Url>, u: Url)
    ensures Distinct(us) && u !in us ==> Distinct(us + [u])
  {
  }

  /** The checks of a registration, all on the state before it. */
  predicate RegisterPasses(env: Env, s: State, op: Op, now: int) {
    && op.Register? && op.admitted && op.nonce in Purge(s.nonces, now)
    && now <= s.nonces[op.nonce].value.expiresAt
    && ProofOfWork.LeadingZeros(Work(env, op.nonce, op.url, op.solution)) >= s.nonces[op.nonce].value.difficulty
    && Distance(now, op.timestamp) <= SKEW && op.signed
    && (op.url in Urls(s.registered) || |s.registered| < env.maxShards)
  }

  /** The checks of a rotation: the first record of the URL has the old key, and both keys signed. */
  predicate RotatePasses(s: State, op: Op, now: int) {
    && op.Rotate? && op.oldKey != op.newKey && Distance(now, op.timestamp) <= SKEW && op.oldSigned && op.newSigned
    && Find(s.registered, op.url).Some? && Find(s.registered, op.url).value.pubkey == op.oldKey
  }

  /** Which requests are accepted. */
  lemma AcceptedExactly(env: Env, s: State, op: Op, now: int)
    ensures var reply := Step(env, s, op, now).0;
      && (reply.Registered? <==> RegisterPasses(env, s, op, now))
      && (reply.Rotated? <==> RotatePasses(s, op, now))
  {
  }

  /** What a request makes of a record. */
  function Claimed(env: Env, s: State, op: Op, now: int, r: Record): Record {
    if RegisterPasses(env, s, op, now) && op.url == r.url then WithKey(r, op.pubkey, now, None)
    else if RotatePasses(s, op, now) && op.url == r.url then WithKey(r, op.newKey, now, Some(op.oldKey))
    else r
  }

  lemma {:induction false} FindUnique(records: seq<Record>, i: nat)
    requires i < |records| && Distinct(Urls(records))
    ensures Find(records, records[i].url) == Some(records[i])
  {
    if i > 0 {
      assert Urls(records)[0] != Urls(records)[i];
      var rest := Urls(records[1..]);
      assert forall j | 0 <= j < |rest| :: rest[j] == Urls(records)[j + 1];
      FindUnique(records[1..], i - 1);
    }
  }

  /** How a shard's key changes, both ways: the record of a URL gets a new key exactly by a registration of that URL
      that passes, which its new key signed, or by a rotation that passes, which names this record's current key and
      which both keys signed. Any other request leaves the record as it is. */
  lemma KeyChangesAreClaimed(env: Env, s: State, op: Op, now: int, i: nat)
    requires i < |s.registered| && Distinct(Urls(s.registered))
    ensures var s', r := Step(env, s, op, now).1, s.registered[i];
      && i < |s'.registered|
      && s'.registered[i] == Claimed(env, s, op, now, r)
      && (RotatePasses(s, op, now) && op.url == r.url ==> r.pubkey == op.oldKey)
      && (s'.registered[i].pubkey != r.pubkey
          <==> (RegisterPasses(env, s, op, now) && op.url == r.url && op.pubkey != r.pubkey)
               || (RotatePasses(s, op, now) && op.url == r.url))
  {
    FindUnique(s.registered, i);
    assert Urls(s.registered)[i] == s.registered[i].url;
    AcceptedExactly(env, s, op, now);
    hide Find, Distinct, ProofOfWork.LeadingZeros, Work, Distance;
  }

  // ---------- the merged list ----------

  lemma {:induction false} MergedGrows(base: seq<Url>, us: seq<Url>, more: seq<Url>)
    ensures Merged(base, us) <= Merged(base, us + more)
    decreases |more|
  {
    if more == [] {
      assert us + more == us;
    } else {
      var all := us + more;
      assert all[..|all| - 1] == us + more[..|more| - 1];
      MergedGrows(base, us, more[..|more| - 1]);
    }
  }

  /** The merged list holds exactly the base and the registered URLs, each registered one once; a base without
      duplicates gives a list without duplicates. */
  lemma {:induction false} MergedHolds(base: seq<Url>, us: seq<Url>)
    ensures base <= Merged(base, us)
    ensures forall u :: u in Merged(base, us) <==> u in base || u in us
    ensures Distinct(base) ==> Distinct(Merged(base, us))
  {
    if us != [] {
      var front := us[..|us| - 1];
      MergedHolds(base, front);
      assert us == front + [us[|us| - 1]];
    }
  }

  // ---------- runs ----------

  datatype Event = Event(op: Op, now: int)

  function Run(env: Env, s: State, events: seq<Event>): State
    decreases |events|
  {
    if events == [] then s else Run(env, Step(env, s, events[0].op, events[0].now).1, events[1..])
  }

  function Replies(env: Env, s: State, events: seq<Event>): seq<Reply>
    decreases |events|
  {
    if events == [] then []
    else
      var (reply, s') := Step(env, s, events[0].op, events[0].now);
      [reply] + Replies(env, s', events[1..])
  }

  function AcceptedCount(replies: seq<Reply>): nat {
    if replies == [] then 0 else (if Accepted(replies[0]) then 1 else 0) + AcceptedCount(replies[1..])
  }

  /** Over any run the version counts the accepted changes. */
  lemma {:induction false} RunVersion(env: Env, s: State, events: seq<Event>)
    requires Distinct(Urls(s.registered))
    ensures Version(env, Run(env, s, events)) == Version(env, s) + AcceptedCount(Replies(env, s, events))
    decreases |events|
  {
    if events != [] {
      hide Step, Distinct, Urls;
      var s1 := Step(env, s, events[0].op, events[0].now).1;
      StepGrows(env, s, events[0].op, events[0].now);
      RunVersion(env, s1, events[1..]);
      var replies := Replies(env, s, events);
      assert replies[1..] == Replies(env, s1, events[1..]);
    }
  }

  /** Over any run the registered URLs stay unique, the list only grows at its end, and it stays within the cap (or
      within what was there). */
  lemma {:induction false} RunGrows(env: Env, s: State, events: seq<Event>)
    requires Distinct(Urls(s.registered))
    ensures var s' := Run(env, s, events);
      && Distinct(Urls(s'.registered))
      && |s'.registered| <= Larger(|s.registered|, env.maxShards)
      && Urls(s.registered) <= Urls(s'.registered)
    decreases |events|
  {
    if events != [] {
      hide Step, Distinct, Urls;
      StepGrows(env, s, events[0].op, events[0].now);
      RunGrows(env, Step(env, s, events[0].op, events[0].now).1, events[1..]);
    }
  }

  /** Over any run the list that the ring uses is only extended. */
  lemma RunExtendsMesh(env: Env, s: State, events: seq<Event>)
    requires Distinct(Urls(s.registered))
    ensures Merged(env.base, Urls(s.registered)) <= Merged(env.base, Urls(Run(env, s, events).registered))
  {
    hide Run, Distinct, Urls, Merged;
    RunGrows(env, s, events);
    var before, after := Urls(s.registered), Urls(Run(env, s, events).registered);
    assert after == before + after[|before|..];
    MergedGrows(env.base, before, after[|before|..]);
  }

  /** A mailbox created on any state of a run is found on any later state whose list is no longer, or by a router whose
      recorded counts include the old one; and the answer names a shard that holds it. */
  lemma MailboxFoundAfterGrowth(env: Env, s: State, events: seq<Event>, created: seq<Url>, urls: seq<Url>, point: nat,
                                prior: seq<int>, want: int, probe: Url -> Probe, holds: Url -> bool, r: Resolution)
    requires created == Merged(env.base, Urls(s.registered))
    requires urls == Merged(env.base, Urls(Run(env, s, events).registered))
    requires Distinct(Urls(s.registered)) && 0 < |created| && |urls| > 0
    requires |created| == |urls| || |created| in prior
    requires Reliable(probe, holds) && holds(Primary(point, |created|, created))
    requires r == Resolved(point, urls, prior, want, probe)
    ensures !r.note && holds(r.shard) && r.era >= |created|
  {
    hide Run, Merged, Urls, Resolved;
    RunExtendsMesh(env, s, events);
    EraFallback(point, created, urls, prior, want, probe, holds, r);
  }

  /** And that is what a registration does, because it records no old count: with `a` and `b` in the base, a
      registration of `c` that passes makes a mailbox created on `a` unfindable. */
  lemma RegistrationLosesMailbox(env: Env, s: State, op: Op, now: int, probe: Url -> Probe, urls: seq<Url>,
                                 r: Resolution)
    requires env.base == ["a", "b"] && s.registered == [] && RegisterPasses(env, s, op, now) && op.url == "c"
    requires Reliable(probe, u => u in Ring(2, 2, Merged(env.base, Urls(s.registered)), 1))
    requires urls == Merged(env.base, Urls(Step(env, s, op, now).1.registered)) && |urls| > 0
    requires r == Resolved(2, urls, [], 1, probe)
    ensures urls == ["a", "b", "c"] && r.note && probe("a") == Exists
  {
    hide Resolved, Distinct, RegisterPasses;
    AcceptedExactly(env, s, op, now);
    var s' := Step(env, s, op, now).1;
    assert Urls(s'.registered) == ["c"] by { OneRegistered(env, s, op, now); }
    hide Step;
    assert Urls([]) == [] && ["c"][..0] == [];
    assert Merged(["a", "b"], []) == ["a", "b"];
    assert Merged(["a", "b"], ["c"]) == ["a", "b"] + ["c"] == ["a", "b", "c"];
    UnrecordedCountLoses(probe, r);
  }

  lemma OneRegistered(env: Env, s: State, op: Op, now: int)
    requires s.registered == [] && RegisterPasses(env, s, op, now)
    ensures Urls(Step(env, s, op, now).1.registered) == [op.url]
  {
    AcceptedExactly(env, s, op, now);
    UrlsAppend([], Record(op.url, op.pubkey, now, None, None));
    assert Urls([]) + [op.url] == [op.url];
  }

  // ---------- challenges ----------

  /** The nonces handed out in a run. */
  function IssuedNonces(events: seq<Event>): seq<string> {
    if events == [] then []
    else (if events[0].op.Issue? && events[0].op.admitted then [events[0].op.nonce] else []) + IssuedNonces(events[1..])
  }

  /** The nonces of the accepted registrations of a run. */
  function RedeemedNonces(env: Env, s: State, events: seq<Event>): seq<string>
    decreases |events|
  {
    if events == [] then []
    else
      var (reply, s') := Step(env, s, events[0].op, events[0].now);
      (if events[0].op.Register? && reply.Registered? then [events[0].op.nonce] else [])
      + RedeemedNonces(env, s', events[1..])
  }

  /** Random nonces: none repeats, none is already stored. */
  predicate Fresh(s: State, events: seq<Event>) {
    && Distinct(IssuedNonces(events))
    && forall n | n in s.nonces :: n !in IssuedNonces(events)
  }

  lemma FreshTail(env: Env, s: State, events: seq<Event>)
    requires events != [] && Fresh(s, events)
    ensures Fresh(Step(env, s, events[0].op, events[0].now).1, events[1..])
  {
    var tail := IssuedNonces(events[1..]);
    var op := events[0].op;
    NoncesOnlyFromIssue(env, s, op, events[0].now);
    hide Step;
    if events[0].op.Issue? && events[0].op.admitted {
      var all := IssuedNonces(events);
      assert all == [events[0].op.nonce] + tail;
      assert all[1..] == tail;
      forall i, j | 0 <= i < j < |tail| ensures tail[i] != tail[j] {
        assert all[i + 1] == tail[i] && all[j + 1] == tail[j];
      }
      forall n | n in tail ensures n in all && n != events[0].op.nonce {
        var i :| 0 <= i < |tail| && tail[i] == n;
        assert all[i + 1] == n && all[0] == events[0].op.nonce;
      }
    } else {
      assert IssuedNonces(events) == tail;
    }
  }

  /** A redeemed nonce was stored unspent and unexpired, its work meets the difficulty it was issued with, and it is
      gone afterwards. */
  lemma RedeemSpends(env: Env, s: State, op: Op, now: int)
    requires op.Register?
    ensures var (reply, s') := Step(env, s, op, now);
      reply.Registered? ==>
        && op.nonce in s.nonces && op.nonce !in s'.nonces && op.signed && Distance(now, op.timestamp) <= SKEW
        && now <= s.nonces[op.nonce].value.expiresAt && now <= s.nonces[op.nonce].expiresAt
        && ProofOfWork.LeadingZeros(Work(env, op.nonce, op.url, op.solution)) >= s.nonces[op.nonce].value.difficulty
  {
  }

  /** A stored challenge is spent by exactly those registrations that answer it in time with enough work, whether or not
      their later checks succeed. */
  lemma SpentExactly(env: Env, s: State, op: Op, now: int)
    requires op.Register? && op.nonce in Purge(s.nonces, now)
    ensures var challenge := s.nonces[op.nonce].value;
      op.nonce !in Step(env, s, op, now).1.nonces
      <==> && op.admitted && now <= challenge.expiresAt
           && ProofOfWork.LeadingZeros(Work(env, op.nonce, op.url, op.solution)) >= challenge.difficulty
  {
  }

  lemma NoncesOnlyFromIssue(env: Env, s: State, op: Op, now: int)
    ensures forall n | n in Step(env, s, op, now).1.nonces ::
              n in s.nonces || (op.Issue? && op.admitted && n == op.nonce)
  {
  }

  lemma {:induction false} RedeemedApart(env: Env, s: State, events: seq<Event>)
    requires Fresh(s, events)
    ensures Distinct(RedeemedNonces(env, s, events))
    ensures forall n | n in RedeemedNonces(env, s, events) :: n in s.nonces || n in IssuedNonces(events)
    decreases |events|
  {
    if events != [] {
      var (op, now) := (events[0].op, events[0].now);
      var (reply, s1) := Step(env, s, op, now);
      FreshTail(env, s, events);
      RedeemedApart(env, s1, events[1..]);
      NoncesOnlyFromIssue(env, s, op, now);
      if op.Register? {
        RedeemSpends(env, s, op, now);
      }
      hide Step;
      var rest := RedeemedNonces(env, s1, events[1..]);
      if op.Register? && reply.Registered? {
        assert op.nonce !in rest;
      }
    }
  }

  /** The event that put this challenge into the store: an admitted request for it, with the configured difficulty, open
      for two minutes and kept for five seconds more. */
  predicate IssuedBy(env: Env, e: Event, n: string, kept: Kept<Challenge>) {
    && e.op.Issue? && e.op.admitted && e.op.nonce == n
    && kept == Kept(Challenge(env.difficulty, e.now + 120_000), e.now + 125_000)
  }

  lemma StepChallenges(env: Env, s: State, e: Event)
    ensures var s' := Step(env, s, e.op, e.now).1;
      forall n | n in s'.nonces ::
        (n in s.nonces && s'.nonces[n] == s.nonces[n]) || IssuedBy(env, e, n, s'.nonces[n])
  {
  }

  /** Every challenge in the store after a run was there before or was issued in it, as it stands. */
  lemma {:induction false} StoredChallenges(env: Env, s: State, events: seq<Event>)
    ensures var s' := Run(env, s, events);
      forall n | n in s'.nonces ::
        || (n in s.nonces && s'.nonces[n] == s.nonces[n])
        || exists j :: 0 <= j < |events| && IssuedBy(env, events[j], n, s'.nonces[n])
    decreases |events|
  {
    hide Step, IssuedBy;
    if events != [] {
      var s1 := Step(env, s, events[0].op, events[0].now).1;
      StepChallenges(env, s, events[0]);
      StoredChallenges(env, s1, events[1..]);
      var s' := Run(env, s, events);
      forall n | n in s'.nonces && !(n in s.nonces && s'.nonces[n] == s.nonces[n])
        ensures exists j :: 0 <= j < |events| && IssuedBy(env, events[j], n, s'.nonces[n])
      {
        if n in s1.nonces && s'.nonces[n] == s1.nonces[n] {
          assert IssuedBy(env, events[0], n, s'.nonces[n]);
        } else {
          var j :| 0 <= j < |events| - 1 && IssuedBy(env, events[1..][j], n, s'.nonces[n]);
          assert events[j + 1] == events[1..][j];
        }
      }
    }
  }

  lemma {:induction false} ReplyAt(env: Env, s: State, events: seq<Event>, i: nat)
    requires i < |events|
    ensures |Replies(env, s, events)| == |events|
    ensures Replies(env, s, events)[i] == Step(env, Run(env, s, events[..i]), events[i].op, events[i].now).0
    decreases |events|
  {
    hide Step;
    RepliesEach(env, s, events);
    if i > 0 {
      var s1 := Step(env, s, events[0].op, events[0].now).1;
      ReplyAt(env, s1, events[1..], i - 1);
      assert events[..i][1..] == events[1..][..i - 1];
    }
  }

  lemma {:induction false} RepliesEach(env: Env, s: State, events: seq<Event>)
    ensures |Replies(env, s, events)| == |events|
    decreases |events|
  {
    hide Step;
    if events != [] {
      RepliesEach(env, Step(env, s, events[0].op, events[0].now).1, events[1..]);
    }
  }

  /** Registration `register` answers the challenge of `issue` within two minutes, with work of the configured
      difficulty on its own nonce, URL and solution. */
  predicate Answers(env: Env, issue: Event, register: Event) {
    && issue.op.Issue? && issue.op.admitted && register.op.Register? && issue.op.nonce == register.op.nonce
    && register.now <= issue.now + 120_000
    && ProofOfWork.LeadingZeros(env.hash(register.op.nonce + ":" + register.op.url + ":" + register.op.solution))
       >= env.difficulty
  }

  /** No membership without work: from a store without challenges, every registration that a run accepts answers a
      challenge that the run issued before it. */
  lemma WorkWasDone(env: Env, s: State, events: seq<Event>, i: nat)
    requires s.nonces == map[] && i < |events|
    ensures |Replies(env, s, events)| == |events|
    ensures Replies(env, s, events)[i].Registered? ==> exists j :: 0 <= j < i && Answers(env, events[j], events[i])
  {
    hide Run, Step;
    ReplyAt(env, s, events, i);
    var before, op := Run(env, s, events[..i]), events[i].op;
    StoredChallenges(env, s, events[..i]);
    AcceptedExactly(env, before, op, events[i].now);
    if Replies(env, s, events)[i].Registered? {
      RedeemSpends(env, before, op, events[i].now);
      var j :| 0 <= j < i && IssuedBy(env, events[..i][j], op.nonce, before.nonces[op.nonce]);
      assert Answers(env, events[j], events[i]);
    }
  }

  /** Each accepted registration of a run redeems a challenge of its own, one that was issued; and when the run starts
      without challenges, each answers one that the run issued before it, in time and with enough work. */
  lemma RedeemedOnce(env: Env, s: State, events: seq<Event>)
    requires Fresh(s, events)
    ensures Distinct(RedeemedNonces(env, s, events))
    ensures forall n | n in RedeemedNonces(env, s, events) :: n in s.nonces || n in IssuedNonces(events)
    ensures |Replies(env, s, events)| == |events|
    ensures s.nonces == map[] ==>
              forall i | 0 <= i < |events| && Replies(env, s, events)[i].Registered? ::
                exists j :: 0 <= j < i && Answers(env, events[j], events[i])
  {
    hide Fresh, Distinct, Replies, Answers;
    RedeemedApart(env, s, events);
    RepliesEach(env, s, events);
    if s.nonces == map[] {
      forall i | 0 <= i < |events| && Replies(env, s, events)[i].Registered?
        ensures exists j :: 0 <= j < i && Answers(env, events[j], events[i])
      {
        WorkWasDone(env, s, events, i);
      }
    }
  }

  /** From challenge to membership: an issued challenge, answered within its two minutes with any solution the solver
      finds for it, with a fresh self-signature and room in the mesh, registers the shard. */
  lemma ChallengeRegisters(env: Env, s: State, issue: Op, issuedAt: int, op: Op, now: int, decimal: nat -> string,
                           i: nat)
    requires issue.Issue? && issue.admitted && op.Register? && op.admitted && op.signed && op.nonce == issue.nonce
    requires issuedAt <= now <= issuedAt + 120_000 && Distance(now, op.timestamp) <= SKEW
    requires ProofOfWork.Solves(j => Work(env, op.nonce, op.url, decimal(j)), env.difficulty, i)
    requires op.solution == decimal(i)
    requires op.url in Urls(s.registered) || |s.registered| < env.maxShards
    ensures var (_, s1) := Step(env, s, issue, issuedAt);
      var (reply, s2) := Step(env, s1, op, now);
      reply.Registered? && op.url in Urls(s2.registered) && Some(op.pubkey) == KeyOf(s2.registered, op.url)
  {
    var s1 := Step(env, s, issue, issuedAt).1;
    assert op.nonce in Purge(s1.nonces, now);
    var known := Find(s1.registered, op.url);
    if known.Some? {
      KeyOfRekeyed(s1.registered, op.url, op.pubkey, now, None);
    } else {
      KeyOfAppended(s1.registered, Record(op.url, op.pubkey, now, None, None));
    }
    hide KeyOf, Rekeyed, Urls;
  }

  function KeyOf(records: seq<Record>, url: Url): Option<string> {
    match Find(records, url) case Some(r) => Some(r.pubkey) case None => None
  }

  lemma {:induction false} KeyOfRekeyed(records: seq<Record>, url: Url, key: string, now: int, previous: Option<string>)
    requires url in Urls(records)
    ensures KeyOf(Rekeyed(records, url, key, now, previous), url) == Some(key)
  {
    var rekeyed := Rekeyed(records, url, key, now, previous);
    if records[0].url != url {
      assert Urls(records) == [records[0].url] + Urls(records[1..]);
      KeyOfRekeyed(records[1..], url, key, now, previous);
      assert rekeyed[1..] == Rekeyed(records[1..], url, key, now, previous);
    }
  }

  lemma {:induction false} KeyOfAppended(records: seq<Record>, r: Record)
    requires r.url !in Urls(records)
    ensures KeyOf(records + [r], r.url) == Some(r.pubkey)
  {
    if records != [] {
      assert Urls(records) == [records[0].url] + Urls(records[1..]);
      KeyOfAppended(records[1..], r);
      assert (records + [r])[1..] == records[1..] + [r];
      assert Urls(records)[0] != r.url;
    } else {
      assert records + [r] == [r];
    }
  }
}
