/** Where combined/worker.js departs from the router: its list ends with the node's own URL. */
module Combined {
  import opened Bytes
  import opened Router
  import opened Mesh
  import opened MeshRuns
  import Shard

  /** `getShardUrls` of the combined worker, after the merge that it shares with the router. */
  function WithSelf(merged: seq<Url>, self: Option<Url>): seq<Url> {
    if self.Some? && self.value !in merged then merged + [self.value] else merged
  }

  /** The combined list keeps its order across a request if and only if the node has no URL of its own, or that URL is
      already in the base or registered, or the request is not a registration that passes, or it registers a URL that is
      already in the base or registered, or it registers the node itself. */
  lemma SelfStaysInPlace(env: Env, s: State, op: Op, now: int, self: Option<Url>)
    requires Distinct(Urls(s.registered))
    ensures var before, after := Urls(s.registered), Urls(Step(env, s, op, now).1.registered);
      WithSelf(Merged(env.base, before), self) <= WithSelf(Merged(env.base, after), self)
      <==> (self.None? || self.value in env.base || self.value in before || !RegisterPasses(env, s, op, now)
            || op.url in env.base || op.url in before || op.url == self.value)
  {
    hide Step, Distinct, Merged, Urls, RegisterPasses;
    StepGrows(env, s, op, now);
    AcceptedExactly(env, s, op, now);
    var before, after := Urls(s.registered), Urls(Step(env, s, op, now).1.registered);
    MergedHolds(env.base, before);
    NewUrlIsListed(env, s, op, now);
    if after != before {
      MergedPush(env.base, before, op.url);
      OrderKept(Merged(env.base, before), op.url, self);
    }
  }

  lemma NewUrlIsListed(env: Env, s: State, op: Op, now: int)
    ensures RegisterPasses(env, s, op, now) ==> op.url in Urls(Step(env, s, op, now).1.registered)
  {
    if RegisterPasses(env, s, op, now) {
      AcceptedExactly(env, s, op, now);
      if op.url !in Urls(s.registered) {
        UrlsAppend(s.registered, Record(op.url, op.pubkey, now, None, None));
      }
      hide Urls, RegisterPasses;
    }
  }

  lemma MergedPush(base: seq<Url>, us: seq<Url>, u: Url)
    ensures Merged(base, us + [u]) == if u in Merged(base, us) then Merged(base, us) else Merged(base, us) + [u]
  {
    assert (us + [u])[..|us|] == us;
  }

  /** The list after `u` is merged in extends the list before, or the node's own URL has moved. */
  lemma OrderKept(merged: seq<Url>, u: Url, self: Option<Url>)
    ensures var more := if u in merged then merged else merged + [u];
      WithSelf(merged, self) <= WithSelf(more, self)
      <==> self.None? || self.value in merged || u in merged || u == self.value
  {
    if self.Some? && self.value !in merged && u !in merged {
      var before, after := WithSelf(merged, self), WithSelf(merged + [u], self);
      assert before[|merged|] == self.value && after[|merged|] == u;
    }
  }

  /** Once the node's own URL is in the base or registered, the combined list only grows, over any run. */
  lemma SettledSelfExtends(env: Env, s: State, events: seq<Event>, self: Option<Url>)
    requires Distinct(Urls(s.registered))
    requires self.Some? ==> self.value in env.base || self.value in Urls(s.registered)
    ensures WithSelf(Merged(env.base, Urls(s.registered)), self)
              <= WithSelf(Merged(env.base, Urls(Run(env, s, events).registered)), self)
  {
    hide Run, Distinct, Merged, Urls;
    RunExtendsMesh(env, s, events);
    MergedHolds(env.base, Urls(s.registered));
  }

  lemma DisplacedLists()
    ensures WithSelf(Merged(["a"], []), Some("s")) == ["a", "s"]
    ensures WithSelf(Merged(["a"], ["b"]), Some("s")) == ["a", "b", "s"]
  {
    assert Merged(["a"], []) == ["a"];
    MergedPush(["a"], [], "b");
    assert [] + ["b"] == ["b"];
  }

  /** The loss when it is not: one shard `a` in the base, the node `s` at the end, then `b` registers. A mailbox created
      on `s` is not found any more, even by a router that recorded the old count of two. */
  lemma SelfDisplaced(probe: Url -> Probe, want: int, r: Resolution)
    requires Reliable(probe, u => u == Primary(1, 2, WithSelf(Merged(["a"], []), Some("s"))))
    requires r == Resolved(1, WithSelf(Merged(["a"], ["b"]), Some("s")), [2], want, probe)
    ensures Primary(1, 2, WithSelf(Merged(["a"], []), Some("s"))) == "s"
    ensures r.note
  {
    hide Resolved;
    DisplacedLists();
    hide Merged, WithSelf;
    var urls := ["a", "b", "s"];
    ResolutionIs(1, urls, [2], want, probe, r);
    forall e: nat | KnownEra(e, |urls|, [2]) ensures probe(Primary(1, e, urls)) != Exists {
      assert e == 2 || e == 3;
      assert urls[1] == "b" && urls[1] != "s";
    }
  }

  // ---------- the local short-circuits ----------

  /** `localCreate`: the node's own mailbox store, no request and no rate limiter. */
  function LocalCreate(cfg: Shard.Config, s: Shard.State, op: Shard.Op, now: int): (bool, Shard.State)
    requires op.Create?
  {
    if now > op.capExp || !op.capSigned then (false, s)
    else
      var record := Shard.CreateRecord(Shard.Lookup(s, op.id), op.hash, op.client, op.urls, now);
      (true, Shard.Save(cfg, s, op.id, record, now))
  }

  /** `existsOnReplica` for the node itself. */
  predicate LocalExists(s: Shard.State, id: string) {
    Shard.Lookup(s, id).Some?
  }

  /** Creating on the node itself succeeds exactly when the request to `/create` would, were it not rate-limited, and it
      stores the same mailboxes; a mailbox created either way is then seen by the local existence check. */
  lemma LocalCreateAgrees(cfg: Shard.Config, s: Shard.State, op: Shard.Op, now: int)
    requires op.Create?
    ensures var (remote, s1) := Shard.HandleCreate(cfg, s, op, now);
      var (ok, s2) := LocalCreate(cfg, s, op, now);
      && (remote.Created? ==> ok && s1.mailboxes == s2.mailboxes && LocalExists(s2, op.id))
      && (ok && !remote.Created? ==> remote == Shard.Refused(429) && s1.mailboxes == s.mailboxes)
      && s2.counters == s.counters
  {
  }

  /** The local existence check answers as `/exists` does, were it not rate-limited. */
  lemma LocalExistsAgrees(s: Shard.State, op: Shard.Op, now: int)
    requires op.Exists?
    ensures var (remote, _) := Shard.HandleExists(s, op, now);
      remote != Shard.Refused(429) ==> (remote.Found? <==> LocalExists(s, op.id))
  {
  }
}
