/** Placement and lookup in router/router.js: the replica ring, the eras, registration and resolution. */
module Router {
  import opened Bytes

  type Url = string

  // ---------- the ring ----------

  function Ring(point: nat, n: nat, urls: seq<Url>, r: nat): (replicas: seq<Url>)
    requires 0 < n <= |urls|
    ensures |replicas| == r
  {
    seq(r, i requires 0 <= i < r => urls[(point % n + i) % n])
  }

  /** `replicaSetForEra` */
  method ReplicaSetForEra(point: nat, n: nat, urls: seq<Url>, r: nat) returns (replicas: seq<Url>)
    requires 0 < n <= |urls|
    ensures replicas == Ring(point, n, urls, r)
  {
    var start := point % n;
    replicas := [];
    for i := 0 to r
      invariant replicas == Ring(point, n, urls, i)
    {
      replicas := replicas + [urls[(start + i) % n]];
    }
  }

  /** `replicationFactor` for a configured whole number. */
  function ReplicationFactor(want: int, n: nat): (r: nat)
    ensures r >= 1 && (n >= 1 ==> r <= n)
    ensures 1 <= want <= n ==> r == want
    ensures want < 1 || n < 1 ==> r == 1
    ensures 1 <= n < want ==> r == n
  {
    var least := if want < n then want else n;
    if least > 1 then least else 1
  }

  lemma RingIndices(start: nat, n: nat, i: nat, j: nat)
    requires start < n && i < j < n
    ensures (start + i) % n != (start + j) % n
  {
    var a, b := start + i, start + j;
    assert a % n == if a < n then a else a - n by { WrapOnce(a, n); }
    assert b % n == if b < n then b else b - n by { WrapOnce(b, n); }
  }

  lemma WrapOnce(a: nat, n: nat)
    requires n > 0 && a < 2 * n
    ensures a % n == if a < n then a else a - n
  {
    if a >= n {
      assert a == n * 1 + (a - n);
      assert (a - n) / n == 0;
      assert a / n == 1;
    }
  }

  /** The ring is the primary and its successors in list order, going round once. */
  lemma RingFollowsList(point: nat, n: nat, urls: seq<Url>, r: nat, i: nat)
    requires 0 < n <= |urls| && i < r <= n
    ensures Ring(point, n, urls, r)[i] == urls[if point % n + i < n then point % n + i else point % n + i - n]
  {
    WrapOnce(point % n + i, n);
  }

  /** The ring gives as many different shards as are wanted, at least one and at most all, the primary first. */
  lemma RingDistinct(point: nat, n: nat, urls: seq<Url>, want: int)
    requires 0 < n <= |urls| && Distinct(urls[..n])
    ensures var r := ReplicationFactor(want, n);
            var replicas := Ring(point, n, urls, r);
            && |replicas| == r && replicas[0] == urls[point % n] && Distinct(replicas)
            && |replicas| == if want < 1 then 1 else if want < n then want else n
  {
    var r := ReplicationFactor(want, n);
    var replicas := Ring(point, n, urls, r);
    WrapOnce(point % n, n);
    forall i, j | 0 <= i < j < r ensures replicas[i] != replicas[j] {
      RingIndices(point % n, n, i, j);
      var a, b := (point % n + i) % n, (point % n + j) % n;
      assert urls[..n][a] == urls[a] && urls[..n][b] == urls[b];
    }
  }

  /** An era's ring does not change when the list is extended. */
  lemma RingOnExtension(point: nat, n: nat, urls: seq<Url>, more: seq<Url>, r: nat)
    requires 0 < n <= |urls| && urls <= more
    ensures Ring(point, n, urls, r) == Ring(point, n, more, r)
  {
  }

  // ---------- eras ----------

  /** Puts a count into a strictly descending list, once. */
  function InsertDescending(n: nat, ns: seq<nat>): seq<nat> {
    if ns == [] || n > ns[0] then [n] + ns
    else if n == ns[0] then ns
    else [ns[0]] + InsertDescending(n, ns[1..])
  }

  function Descending(ns: seq<nat>): seq<nat> {
    if ns == [] then [] else InsertDescending(ns[0], Descending(ns[1..]))
  }

  function Usable(counts: seq<int>, n: nat): seq<nat> {
    if counts == [] then []
    else (if 0 < counts[0] <= n then [counts[0]] else []) + Usable(counts[1..], n)
  }

  /** `eraCountsDescending` for whole-number counts: positive, no larger than the list, each once, largest first. */
  function Eras(n: nat, prior: seq<int>): (eras: seq<nat>)
    ensures Fit(eras, n)
  {
    UsableIs([n] + prior, n);
    DescendingIs(Usable([n] + prior, n));
    var eras := Descending(Usable([n] + prior, n));
    assert forall i | 0 <= i < |eras| :: eras[i] in eras;
    eras
  }

  predicate StrictlyDescending(ns: seq<nat>) {
    forall i, j | 0 <= i < j < |ns| :: ns[i] > ns[j]
  }

  /** Every count names a prefix of a list of `n` shards. */
  predicate Fit(eras: seq<nat>, n: nat) {
    forall i | 0 <= i < |eras| :: 0 < eras[i] <= n
  }

  lemma {:induction false} InsertIs(n: nat, ns: seq<nat>)
    requires StrictlyDescending(ns)
    ensures StrictlyDescending(InsertDescending(n, ns))
    ensures forall x :: x in InsertDescending(n, ns) <==> x == n || x in ns
  {
    if ns != [] && n < ns[0] {
      InsertIs(n, ns[1..]);
      var tail := InsertDescending(n, ns[1..]);
      forall j | 0 <= j < |tail| ensures ns[0] > tail[j] {
        assert tail[j] in tail;
      }
      assert ns == [ns[0]] + ns[1..];
    }
  }

  lemma {:induction false} DescendingIs(ns: seq<nat>)
    ensures StrictlyDescending(Descending(ns))
    ensures forall x :: x in Descending(ns) <==> x in ns
  {
    if ns != [] {
      DescendingIs(ns[1..]);
      InsertIs(ns[0], Descending(ns[1..]));
      assert ns == [ns[0]] + ns[1..];
    }
  }

  lemma {:induction false} UsableIs(counts: seq<int>, n: nat)
    ensures forall x: nat :: x in Usable(counts, n) <==> 0 < x <= n && x in counts
  {
    if counts != [] {
      UsableIs(counts[1..], n);
      assert counts == [counts[0]] + counts[1..];
    }
  }

  /** The eras are exactly the current count and the recorded prior ones that fit, in strictly descending order. */
  lemma ErasAre(n: nat, prior: seq<int>)
    ensures StrictlyDescending(Eras(n, prior))
    ensures forall x: nat :: x in Eras(n, prior) <==> 0 < x <= n && (x == n || x in prior)
  {
    UsableIs([n] + prior, n);
    DescendingIs(Usable([n] + prior, n));
  }

  // ---------- registration and resolution ----------

  datatype Resolution = Resolution(shard: Url, replicas: seq<Url>, era: nat, note: bool)

  /** What an existence probe brings: an ok response, another status, or no response. */
  datatype Probe = Exists | Missing | Unreachable

  function Primary(point: nat, n: nat, urls: seq<Url>): Url
    requires 0 < n <= |urls|
  {
    urls[point % n]
  }

  function Placed(point: nat, n: nat, urls: seq<Url>, want: int, note: bool): Resolution
    requires 0 < n <= |urls|
  {
    var replicas := Ring(point, n, urls, ReplicationFactor(want, n));
    Resolution(replicas[0], replicas, n, note)
  }

  /** The first of the eras whose primary answers the probe. */
  function FirstEra(point: nat, urls: seq<Url>, eras: seq<nat>, probe: Url -> Probe): (found: Option<nat>)
    requires Fit(eras, |urls|)
    ensures found.Some? ==> 0 < found.value <= |urls|
  {
    if eras == [] then None
    else if probe(Primary(point, eras[0], urls)) == Exists then Some(eras[0])
    else FirstEra(point, urls, eras[1..], probe)
  }

  function Resolved(point: nat, urls: seq<Url>, prior: seq<int>, want: int, probe: Url -> Probe): Resolution
    requires |urls| > 0
  {
    match FirstEra(point, urls, Eras(|urls|, prior), probe)
    case Some(n) => Placed(point, n, urls, want, false)
    case None => Placed(point, |urls|, urls, want, true)
  }

  /** `handleResolve` after its input check: the eras from the largest down, then the current-era guess with a note. */
  method Resolve(point: nat, urls: seq<Url>, prior: seq<int>, want: int, probe: Url -> Probe) returns (r: Resolution)
    requires |urls| > 0
    ensures r == Resolved(point, urls, prior, want, probe)
  {
    var eras := Eras(|urls|, prior);
    for k := 0 to |eras|
      invariant FirstEra(point, urls, eras, probe) == FirstEra(point, urls, eras[k..], probe)
    {
      assert eras[k..][1..] == eras[k + 1..];
      var n := eras[k];
      var replicas := ReplicaSetForEra(point, n, urls, ReplicationFactor(want, n));
      PrimaryLeads(point, n, urls, want);
      if probe(replicas[0]) == Exists {
        return Resolution(replicas[0], replicas, n, false);
      }
    }
    var replicas := ReplicaSetForEra(point, |urls|, urls, ReplicationFactor(want, |urls|));
    r := Resolution(replicas[0], replicas, |urls|, true);
  }

  lemma PrimaryLeads(point: nat, n: nat, urls: seq<Url>, want: int)
    requires 0 < n <= |urls|
    ensures Ring(point, n, urls, ReplicationFactor(want, n))[0] == Primary(point, n, urls)
  {
    WrapOnce(point % n, n);
  }

  /** `handleRegister` after its checks: every replica is asked to create; only the primary's answer decides. */
  method Register(point: nat, urls: seq<Url>, want: int, creates: Url -> bool) returns (r: Option<seq<Url>>)
    requires |urls| > 0
    ensures r.Some? <==> creates(Primary(point, |urls|, urls))
    ensures r.Some? ==> r.value == Ring(point, |urls|, urls, ReplicationFactor(want, |urls|))
  {
    var replicas := ReplicaSetForEra(point, |urls|, urls, ReplicationFactor(want, |urls|));
    PrimaryLeads(point, |urls|, urls, want);
    if !creates(replicas[0]) {
      return None;
    }
    r := Some(replicas);
  }

  lemma {:induction false} FirstEraIs(point: nat, urls: seq<Url>, eras: seq<nat>, probe: Url -> Probe)
    requires Fit(eras, |urls|) && StrictlyDescending(eras)
    ensures match FirstEra(point, urls, eras, probe)
            case None => forall e: nat | e in eras && 0 < e <= |urls| :: probe(Primary(point, e, urls)) != Exists
            case Some(n) =>
              && n in eras && probe(Primary(point, n, urls)) == Exists
              && forall e: nat | e in eras && n < e <= |urls| :: probe(Primary(point, e, urls)) != Exists
  {
    if eras != [] {
      assert eras == [eras[0]] + eras[1..];
      if probe(Primary(point, eras[0], urls)) == Exists {
        forall e | e in eras ensures e <= eras[0] {
          var i :| 0 <= i < |eras| && eras[i] == e;
        }
      } else {
        FirstEraIs(point, urls, eras[1..], probe);
      }
    }
  }

  /** An era that resolution tries: the current count, or a recorded one that fits. */
  ghost predicate KnownEra(e: nat, n: nat, prior: seq<int>) {
    0 < e <= n && (e == n || e in prior)
  }

  /** What a resolution means: without a note its shard is the primary of the largest known era whose primary answers
      the probe, and there is a note exactly when none does; with a note it is the current primary. */
  lemma ResolutionIs(point: nat, urls: seq<Url>, prior: seq<int>, want: int, probe: Url -> Probe, r: Resolution)
    requires |urls| > 0
    requires r == Resolved(point, urls, prior, want, probe)
    ensures KnownEra(r.era, |urls|, prior)
    ensures r.shard == Primary(point, r.era, urls)
    ensures r.replicas == Ring(point, r.era, urls, ReplicationFactor(want, r.era)) && r.replicas[0] == r.shard
    ensures r.note <==> forall e: nat | KnownEra(e, |urls|, prior) :: probe(Primary(point, e, urls)) != Exists
    ensures if r.note then r.era == |urls| else
              && probe(r.shard) == Exists
              && forall e: nat | KnownEra(e, |urls|, prior) && e > r.era :: probe(Primary(point, e, urls)) != Exists
  {
    ErasAre(|urls|, prior);
    FirstEraIs(point, urls, Eras(|urls|, prior), probe);
    PrimaryLeads(point, r.era, urls, want);
  }

  /** Probes that answer, and answer truly, about the shards that hold a mailbox. */
  ghost predicate Reliable(probe: Url -> Probe, holds: Url -> bool) {
    forall u :: probe(u) == Exists <==> holds(u)
  }

  /** Era fallback: a mailbox registered on the primary of a list is found on every extension of that list, provided
      the old count is the current one or recorded, and the answer names the largest era whose primary holds it. */
  lemma EraFallback(point: nat, created: seq<Url>, urls: seq<Url>, prior: seq<int>, want: int, probe: Url -> Probe,
                    holds: Url -> bool, r: Resolution)
    requires 0 < |created| && created <= urls && (|created| == |urls| || |created| in prior)
    requires Reliable(probe, holds) && holds(Primary(point, |created|, created))
    requires r == Resolved(point, urls, prior, want, probe)
    ensures !r.note && r.era >= |created| && KnownEra(r.era, |urls|, prior)
    ensures r.shard == Primary(point, r.era, urls) && holds(r.shard)
    ensures forall e: nat | KnownEra(e, |urls|, prior) && e > r.era :: !holds(Primary(point, e, urls))
  {
    ResolutionIs(point, urls, prior, want, probe, r);
    assert Primary(point, |created|, urls) == Primary(point, |created|, created);
    assert KnownEra(|created|, |urls|, prior);
  }

  /** A mailbox that only its creation ring holds, all of it or just the primary, is found on a grown list if and only
      if some known era still maps to a shard that holds it; a recorded old count is what guarantees it. */
  lemma FoundExactly(point: nat, created: seq<Url>, urls: seq<Url>, prior: seq<int>, want: int, copies: nat,
                     probe: Url -> Probe, r: Resolution)
    requires 0 < |created| && created <= urls && copies >= 1
    requires Reliable(probe, u => u in Ring(point, |created|, created, copies))
    requires r == Resolved(point, urls, prior, want, probe)
    ensures !r.note <==>
              exists e: nat :: KnownEra(e, |urls|, prior)
                               && Primary(point, e, urls) in Ring(point, |created|, created, copies)
  {
    ResolutionIs(point, urls, prior, want, probe, r);
    if !r.note {
      assert KnownEra(r.era, |urls|, prior);
    }
  }

  /** Without the old count, growth loses a mailbox: created on `a` of `a`, `b`, it is not found among `a`, `b`, `c`. */
  lemma UnrecordedCountLoses(probe: Url -> Probe, r: Resolution)
    requires Reliable(probe, u => u in Ring(2, 2, ["a", "b"], 1))
    requires r == Resolved(2, ["a", "b", "c"], [], 1, probe)
    ensures r.note && probe("a") == Exists
  {
    var urls := ["a", "b", "c"];
    assert Ring(2, 2, ["a", "b"], 1) == ["a"];
    ResolutionIs(2, urls, [], 1, probe, r);
    forall e: nat | KnownEra(e, |urls|, []) ensures probe(Primary(2, e, urls)) != Exists {
      assert e == 3 && Primary(2, 3, urls) == "c";
    }
  }
}
