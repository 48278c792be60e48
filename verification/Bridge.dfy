/** The courier bridge of transports/nextalk-relay/bridge: attachments, sending with fallback, and polling. */
module Bridge {
  import opened Bytes
  import opened Framing
  import Base64

  /** The 16-byte address that the core uses for a mailbox. */
  type Alias = seq<byte>

  datatype Binding = Binding(mailboxId: string, readSecret: string, shardUrl: string, routerUrl: string)

  /** `aliasFor` on the full mailbox id, whether an id is 32 bytes of hex, and the bytes of a text. */
  datatype Lib = Lib(aliasFor: string -> Alias, full: string -> bool, bytes: string -> seq<byte>)

  // ---------- reading one shard ----------

  /** What a read brings: a 200 or 404 answer, a failure that left the mailbox alone, or a burned batch whose answer
      was lost on the way. */
  datatype Outcome =
    | Drained(messages: seq<string>)
    | Failed(error: string)
    | Burned(messages: seq<string>, error: string)

  function Open(lib: Lib, message: string): seq<byte> {
    match Base64.Decode(message) case Some(f) => f case None => lib.bytes(message)
  }

  /** A message of padded base64 is unwrapped to the bytes its digits spell; any other text comes out as its bytes. */
  lemma OpenExactly(lib: Lib, message: string)
    ensures var s, f := Base64.Unbroken(message), Open(lib, message);
      && (forall pad: nat | Base64.Padded(s, pad) ::
            |f| == |s| / 4 * 3 - pad && forall k | 0 <= k < |f| :: f[k] as int == Base64.ByteAt(s, k))
      && ((forall pad: nat :: !Base64.Padded(s, pad)) ==> f == lib.bytes(message))
  {
    hide Base64.Decode, Base64.Padded, Base64.ByteAt, Base64.Unbroken;
    Base64.DecodesExactly(message);
  }

  function OpenAll(lib: Lib, messages: seq<string>): (fs: seq<seq<byte>>)
    ensures |fs| == |messages|
  {
    seq(|messages|, i requires 0 <= i < |messages| => Open(lib, messages[i]))
  }

  /** The tail of `readFromShard`. */
  method ReadFrames(lib: Lib, messages: seq<string>) returns (out: seq<seq<byte>>)
    ensures out == OpenAll(lib, messages)
  {
    out := [];
    for i := 0 to |messages|
      invariant out == OpenAll(lib, messages[..i])
    {
      var decoded := Base64.Decode(messages[i]);
      out := out + [if decoded.Some? then decoded.value else lib.bytes(messages[i])];
    }
    assert messages[..|messages|] == messages;
  }

  // ---------- the reply of a poll ----------

  /** One request to `/read`. */
  datatype Fetch = Fetch(url: string, mailboxId: string, readSecret: string)

  /** What a series of reads brings; `read` answers the n-th of them. */
  function Heard(read: (nat, Fetch) -> Outcome, fetches: seq<Fetch>): seq<Outcome> {
    if fetches == [] then []
    else var last := |fetches| - 1; Heard(read, fetches[..last]) + [read(last, fetches[last])]
  }

  datatype PollReply = NotReady | PollError(detail: string) | PollResult(blob: seq<byte>, count: nat)

  function DrainedFrames(lib: Lib, outs: seq<Outcome>): seq<seq<byte>> {
    if outs == [] then []
    else (if outs[0].Drained? then OpenAll(lib, outs[0].messages) else []) + DrainedFrames(lib, outs[1..])
  }

  function FirstError(outs: seq<Outcome>): Option<string> {
    if outs == [] then None else if outs[0].Drained? then FirstError(outs[1..]) else Some(outs[0].error)
  }

  /** `marshalPollResult`, up to the field encoding: four-byte lengths and a four-byte count. */
  method MarshalPollResult(frames: seq<seq<byte>>) returns (blob: seq<byte>, count: nat)
    ensures blob == Frames(frames) && count == |frames| % 0x1_0000_0000
  {
    blob := [];
    for i := 0 to |frames|
      invariant blob == Frames(frames[..i])
    {
      assert frames[..i + 1] == frames[..i] + [frames[i]];
      FramesPush(frames[..i], frames[i]);
      blob := blob + BE32(|frames[i]|);
      blob := blob + frames[i];
    }
    assert frames[..|frames|] == frames;
    count := |frames| % 0x1_0000_0000;
  }

  function PollOf(lib: Lib, outs: seq<Outcome>): PollReply {
    var frames := DrainedFrames(lib, outs);
    if FirstError(outs).Some? && frames == [] then PollError(FirstError(outs).value)
    else PollResult(Frames(frames), |frames| % 0x1_0000_0000)
  }

  lemma {:induction false} DrainedPush(lib: Lib, outs: seq<Outcome>, o: Outcome)
    ensures DrainedFrames(lib, outs + [o])
         == DrainedFrames(lib, outs) + (if o.Drained? then OpenAll(lib, o.messages) else [])
    ensures FirstError(outs + [o])
         == if FirstError(outs).Some? || o.Drained? then FirstError(outs) else Some(o.error)
  {
    if outs == [] {
      assert outs + [o] == [o];
      assert DrainedFrames(lib, [o][1..]) == [];
    } else {
      assert (outs + [o])[1..] == outs[1..] + [o];
      DrainedPush(lib, outs[1..], o);
    }
  }

  // ---------- what a poll keeps ----------

  /** The frames behind a blob: what a reader of four-byte length prefixes gets. */
  function Unframe(b: seq<byte>): Option<seq<seq<byte>>>
    decreases |b|
  {
    if b == [] then Some([])
    else if |b| < 4 || 4 + ReadBE32(b) > |b| then None
    else
      var n := ReadBE32(b);
      match Unframe(b[4 + n..]) case Some(rest) => Some([b[4..4 + n]] + rest) case None => None
  }

  predicate Sized(fs: seq<seq<byte>>) {
    forall i | 0 <= i < |fs| :: |fs[i]| < 0x1_0000_0000
  }

  lemma UnframeHead(b: seq<byte>, f: seq<byte>, tail: seq<byte>)
    requires |b| >= 4 && ReadBE32(b) == |f| && b[4..] == f + tail
    ensures Unframe(b) == match Unframe(tail) case Some(rest) => Some([f] + rest) case None => None
  {
    hide ReadBE32;
    assert b[4..4 + |f|] == b[4..][..|f|] == f;
    assert b[4 + |f|..] == b[4..][|f|..] == tail;
  }

  lemma {:induction false} UnframeExact(fs: seq<seq<byte>>)
    requires Sized(fs)
    ensures Unframe(Frames(fs)) == Some(fs)
  {
    hide ReadBE32, BE32, Unframe;
    if fs == [] {
      UnframeNothing();
    } else {
      var f, tail := fs[0], Frames(fs[1..]);
      UnframeExact(fs[1..]);
      BE32RoundTrip(|f|, f + tail);
      Assoc(BE32(|f|), f, tail);
      assert (BE32(|f|) + (f + tail))[4..] == f + tail;
      UnframeHead(BE32(|f|) + (f + tail), f, tail);
      assert fs == [f] + fs[1..];
    }
  }

  lemma UnframeNothing()
    ensures Unframe([]) == Some([])
  {
  }

  /** The frames that left the shards in a poll, whether or not their answer arrived. */
  function BurnedFrames(lib: Lib, outs: seq<Outcome>): seq<seq<byte>> {
    if outs == [] then []
    else (if outs[0].Failed? then [] else OpenAll(lib, outs[0].messages)) + BurnedFrames(lib, outs[1..])
  }

  predicate NoLostAnswer(outs: seq<Outcome>) {
    forall i | 0 <= i < |outs| :: outs[i].Burned? ==> outs[i].messages == []
  }

  /** How many frames the poll lost: those of the burned batches. */
  lemma {:induction false} PollLoses(lib: Lib, outs: seq<Outcome>)
    ensures |DrainedFrames(lib, outs)| <= |BurnedFrames(lib, outs)|
    ensures NoLostAnswer(outs) <==> |DrainedFrames(lib, outs)| == |BurnedFrames(lib, outs)|
    ensures NoLostAnswer(outs) ==> DrainedFrames(lib, outs) == BurnedFrames(lib, outs)
  {
    if outs != [] {
      PollLoses(lib, outs[1..]);
      assert NoLostAnswer(outs) <==>
             (outs[0].Burned? ==> outs[0].messages == []) && NoLostAnswer(outs[1..]) by {
        if (outs[0].Burned? ==> outs[0].messages == []) && NoLostAnswer(outs[1..]) {
          forall i | 0 <= i < |outs| && outs[i].Burned? ensures outs[i].messages == [] {
            assert i > 0 ==> outs[i] == outs[1..][i - 1];
          }
        }
      }
      hide NoLostAnswer;
    }
  }

  /** A reply is an error exactly when some read failed and nothing was drained; otherwise its blob and count decode to
      the drained frames. */
  lemma PollReplyIs(lib: Lib, outs: seq<Outcome>)
    requires Sized(DrainedFrames(lib, outs)) && |DrainedFrames(lib, outs)| < 0x1_0000_0000
    ensures PollOf(lib, outs).PollError? || PollOf(lib, outs).PollResult?
    ensures PollOf(lib, outs).PollError? <==> DrainedFrames(lib, outs) == [] && SomeFailed(outs)
    ensures forall i: nat | PollOf(lib, outs).PollError? && FirstFailure(outs, i) ::
              PollOf(lib, outs).detail == outs[i].error
    ensures PollOf(lib, outs).PollResult? ==>
              Unframe(PollOf(lib, outs).blob) == Some(DrainedFrames(lib, outs))
              && PollOf(lib, outs).count == |DrainedFrames(lib, outs)|
  {
    hide Unframe, Frames, DrainedFrames, FirstError, FirstFailure, SomeFailed, Sized;
    UnframeExact(DrainedFrames(lib, outs));
    FirstErrorIs(outs);
  }

  /** The frames in a poll reply. */
  function InReply(reply: PollReply): Option<seq<seq<byte>>> {
    if reply.PollResult? then Unframe(reply.blob) else Some([])
  }

  /** A poll delivers everything its reads took off the shards, in reading order, if and only if no answer with mail in
      it was lost after a shard had burned it. */
  lemma PollDelivers(lib: Lib, outs: seq<Outcome>)
    requires Sized(DrainedFrames(lib, outs)) && |DrainedFrames(lib, outs)| < 0x1_0000_0000
    ensures InReply(PollOf(lib, outs)) == Some(BurnedFrames(lib, outs)) <==> NoLostAnswer(outs)
  {
    hide Unframe, DrainedFrames, BurnedFrames, NoLostAnswer, SomeFailed, Sized, PollOf;
    PollLoses(lib, outs);
    PollReplyIs(lib, outs);
  }

  predicate SomeFailed(outs: seq<Outcome>) {
    exists i :: 0 <= i < |outs| && !outs[i].Drained?
  }

  /** The failure at `i` is the first one. */
  predicate FirstFailure(outs: seq<Outcome>, i: nat) {
    i < |outs| && !outs[i].Drained? && forall j | 0 <= j < i :: outs[j].Drained?
  }

  /** The error kept is that of the first read that failed. */
  lemma {:induction false} FirstErrorIs(outs: seq<Outcome>)
    ensures FirstError(outs).Some? <==> SomeFailed(outs)
    ensures forall i: nat | FirstFailure(outs, i) :: FirstError(outs) == Some(outs[i].error)
  {
    if outs != [] {
      var rest := outs[1..];
      FirstErrorIs(rest);
      assert forall i | 0 <= i < |rest| :: rest[i] == outs[i + 1];
      forall i: nat | FirstFailure(outs, i) ensures FirstError(outs) == Some(outs[i].error) {
        if i > 0 {
          assert outs[0].Drained? && FirstFailure(rest, i - 1);
        }
      }
      if i :| 0 <= i < |outs| && !outs[i].Drained? {
        assert i > 0 ==> !rest[i - 1].Drained?;
      }
    }
  }

  // ---------- the shards a frame may go to ----------

  /** The primary first, every other named replica once, in the order of first mention. */
  ghost predicate Candidates(urls: seq<string>, primary: string, replicas: seq<string>) {
    && |urls| > 0 && urls[0] == primary && Distinct(urls)
    && (forall u :: u in urls <==> u == primary || (u != "" && u in replicas))
    && (forall i, j | 0 < i < j < |urls| :: FirstAt(replicas, urls[i]) < FirstAt(replicas, urls[j]))
  }

  /** `candidateShardURLs`: the primary, then every other named replica once, in the order given. */
  method CandidateShardUrls(primary: string, replicas: seq<string>) returns (out: seq<string>)
    ensures Candidates(out, primary, replicas)
  {
    var seen := {primary};
    out := [primary];
    for k := 0 to |replicas|
      invariant |out| > 0 && out[0] == primary && Distinct(out)
      invariant forall u :: u in out <==> u in seen
      invariant forall u :: u in seen <==> u == primary || (u != "" && u in replicas[..k])
      invariant forall i | 0 < i < |out| :: FirstAt(replicas, out[i]) < k
      invariant forall i, j | 0 < i < j < |out| :: FirstAt(replicas, out[i]) < FirstAt(replicas, out[j])
    {
      var u := replicas[k];
      assert replicas[..k + 1] == replicas[..k] + [u];
      if u == "" || u in seen {
        continue;
      }
      FirstHere(replicas, k);
      seen := seen + {u};
      out := out + [u];
    }
    assert replicas[..|replicas|] == replicas;
  }

  function FirstAt(us: seq<string>, u: string): (i: nat)
    ensures i <= |us|
  {
    if us == [] || us[0] == u then 0 else 1 + FirstAt(us[1..], u)
  }

  lemma {:induction false} FirstHere(us: seq<string>, k: nat)
    requires k < |us| && us[k] !in us[..k]
    ensures FirstAt(us, us[k]) == k
  {
    if k > 0 {
      assert us[0] in us[..k];
      forall i | 0 <= i < k - 1 ensures us[1..][i] != us[k] {
        assert us[..k][i + 1] == us[1..][i];
      }
      FirstHere(us[1..], k - 1);
    }
  }

  /** What `sendToShard` brings: success, a refusal, or a frame that was queued though its answer was lost. */
  datatype SendOutcome = Accepted | Refused(error: string) | Unconfirmed(error: string)

  /** One request to `/send`. */
  datatype Post = Post(url: string, mailboxId: string, message: string)

  function PostsTo(urls: seq<string>, mailboxId: string, message: string): (posts: seq<Post>)
    ensures |posts| == |urls|
  {
    seq(|urls|, i requires 0 <= i < |urls| => Post(urls[i], mailboxId, message))
  }

  lemma NoPosts(urls: seq<string>, mailboxId: string, message: string)
    ensures PostsTo(urls[..0], mailboxId, message) == []
  {
  }

  lemma PostsPush(urls: seq<string>, i: nat, mailboxId: string, message: string)
    requires i < |urls|
    ensures PostsTo(urls[..i + 1], mailboxId, message)
         == PostsTo(urls[..i], mailboxId, message) + [Post(urls[i], mailboxId, message)]
  {
  }

  lemma OnePost(url: string, mailboxId: string, message: string, n: nat)
    requires n == 1
    ensures PostsTo([url][..n], mailboxId, message) == [Post(url, mailboxId, message)]
  {
  }

  lemma SomeCandidate(urls: seq<string>, primary: string, replicas: seq<string>)
    requires Candidates(urls, primary, replicas)
    ensures |urls| > 0
  {
  }

  /** How many copies the shards hold after these posts; `send` answers the n-th of them. */
  function Copies(send: (nat, Post) -> SendOutcome, posts: seq<Post>): nat {
    if posts == [] then 0
    else
      var last := |posts| - 1;
      Copies(send, posts[..last]) + (if send(last, posts[last]).Refused? then 0 else 1)
  }

  /** How many of the posts were queued though their answer was lost. */
  function LostAnswers(send: (nat, Post) -> SendOutcome, posts: seq<Post>): nat {
    if posts == [] then 0
    else
      var last := |posts| - 1;
      LostAnswers(send, posts[..last]) + (if send(last, posts[last]).Unconfirmed? then 1 else 0)
  }

  /** No answer was lost: every failed post left nothing behind. */
  ghost predicate Honest(send: (nat, Post) -> SendOutcome, posts: seq<Post>) {
    forall i | 0 <= i < |posts| :: !send(i, posts[i]).Unconfirmed?
  }

  /** So the copies match the acknowledgement if and only if no answer was lost. */
  lemma {:induction false} HonestExactly(send: (nat, Post) -> SendOutcome, posts: seq<Post>)
    ensures LostAnswers(send, posts) == 0 <==> Honest(send, posts)
  {
    if posts != [] {
      var last := |posts| - 1;
      HonestExactly(send, posts[..last]);
      assert forall i | 0 <= i < last :: posts[..last][i] == posts[i];
      if Honest(send, posts[..last]) && !send(last, posts[last]).Unconfirmed? {
        forall i | 0 <= i < |posts| ensures !send(i, posts[i]).Unconfirmed? {
          assert i < last ==> !send(i, posts[..last][i]).Unconfirmed?;
        }
      }
      if Honest(send, posts) {
        forall i | 0 <= i < last ensures !send(i, posts[..last][i]).Unconfirmed? {
          assert !send(i, posts[i]).Unconfirmed?;
        }
      }
    }
  }

  datatype Reply = Ack | NotStarted | Failure(detail: string)

  /** The loop of `onSend`: the same message for the same mailbox to one shard after the other, until one accepts. */
  method TryShards(urls: seq<string>, mailboxId: string, message: string, send: (nat, Post) -> SendOutcome)
      returns (reply: Reply, posts: seq<Post>)
    requires |urls| > 0
    ensures 0 < |posts| <= |urls| && posts == PostsTo(urls[..|posts|], mailboxId, message)
    ensures reply.Ack? <==> send(|posts| - 1, posts[|posts| - 1]).Accepted?
    ensures forall i | 0 <= i < |posts| - 1 :: !send(i, posts[i]).Accepted?
    ensures !reply.Ack? ==> |posts| == |urls| && reply == Failure(send(|posts| - 1, posts[|posts| - 1]).error)
    ensures Copies(send, posts) == LostAnswers(send, posts) + (if reply.Ack? then 1 else 0)
    ensures Honest(send, posts) <==> Copies(send, posts) == if reply.Ack? then 1 else 0
  {
    hide Honest, PostsTo;
    var lastErr := "";
    posts := [];
    NoPosts(urls, mailboxId, message);
    for i := 0 to |urls|
      invariant |posts| == i && posts == PostsTo(urls[..i], mailboxId, message)
      invariant forall j | 0 <= j < i :: !send(j, posts[j]).Accepted?
      invariant i > 0 ==> lastErr == send(i - 1, posts[i - 1]).error
      invariant Copies(send, posts) == LostAnswers(send, posts)
    {
      var post := Post(urls[i], mailboxId, message);
      assert (posts + [post])[..i] == posts;
      PostsPush(urls, i, mailboxId, message);
      posts := posts + [post];
      HonestExactly(send, posts);
      var outcome := send(i, post);
      if outcome.Accepted? {
        return Ack, posts;
      }
      lastErr := outcome.error;
    }
    HonestExactly(send, posts);
    return Failure(lastErr), posts;
  }

  // ---------- the bridge ----------

  datatype Resolution = Resolution(mailboxId: string, shardUrl: string, replicas: seq<string>)

  const MAX_FRAME_BYTES: nat := 40 * 1024

  /** An address given as alias and shard. */
  predicate Explicit(alias: Alias, shardUrl: string) {
    |alias| == 16 && shardUrl != ""
  }

  /** The posts are the message to the first candidates of a resolution, and to all of them if none accepted. */
  ghost predicate Fallback(posts: seq<Post>, res: Resolution, message: string, reply: Reply) {
    exists urls :: && Candidates(urls, res.shardUrl, res.replicas) && |posts| <= |urls|
                   && posts == PostsTo(urls[..|posts|], res.mailboxId, message) && (!reply.Ack? ==> |posts| == |urls|)
  }

  lemma FallbackIs(urls: seq<string>, posts: seq<Post>, res: Resolution, message: string, reply: Reply)
    requires Candidates(urls, res.shardUrl, res.replicas) && |posts| <= |urls|
    requires posts == PostsTo(urls[..|posts|], res.mailboxId, message) && (!reply.Ack? ==> |posts| == |urls|)
    ensures Fallback(posts, res, message, reply)
  {
  }

  /** Some binding names this router. */
  ghost predicate Names(bindings: map<Alias, Binding>, url: string) {
    url != "" && exists a :: a in bindings && bindings[a].routerUrl == url
  }

  predicate NoRouter(bindings: map<Alias, Binding>) {
    forall a | a in bindings :: bindings[a].routerUrl == ""
  }

  class Courier {
    const lib: Lib
    var running: bool
    var routerUrl: string
    var aliases: map<Alias, Binding>
    var attached: map<Alias, Binding>

    constructor (lib: Lib)
      ensures this.lib == lib && !running && routerUrl == "" && aliases == map[] && attached == map[] && Coherent()
    {
      this.lib, running, routerUrl, aliases, attached := lib, false, "", map[], map[];
    }

    /** Every alias stands for a full mailbox id that it is the alias of. */
    ghost predicate Coherent()
      reads this
    {
      && (forall a | a in aliases :: lib.full(aliases[a].mailboxId) && lib.aliasFor(aliases[a].mailboxId) == a)
      && (forall a | a in attached :: lib.full(attached[a].mailboxId) && lib.aliasFor(attached[a].mailboxId) == a)
    }

    method StartStop(start: bool)
      requires Coherent()
      modifies this`running
      ensures Coherent() && running == start
    {
      running := start;
    }

    /** `recordAlias` as register, resolve and send call it, for a mailbox id that the relay returned. */
    method Learn(bind: Binding) returns (learned: bool)
      requires Coherent()
      modifies this`aliases
      ensures Coherent() && learned == lib.full(bind.mailboxId)
      ensures aliases == if learned then old(aliases)[lib.aliasFor(bind.mailboxId) := bind] else old(aliases)
    {
      learned := lib.full(bind.mailboxId);
      if learned {
        aliases := aliases[lib.aliasFor(bind.mailboxId) := bind];
      }
    }

    method ExpandAlias(alias: Alias) returns (bind: Option<Binding>)
      requires Coherent()
      ensures bind.Some? <==> alias in aliases
      ensures bind.Some? ==> bind.value == aliases[alias] && lib.full(bind.value.mailboxId)
                             && lib.aliasFor(bind.value.mailboxId) == alias
    {
      bind := if alias in aliases then Some(aliases[alias]) else None;
    }

    /** Any router named by the bindings of a map, in no particular order. */
    method AnyRouter(bindings: map<Alias, Binding>) returns (url: string)
      ensures if url == "" then NoRouter(bindings) else Names(bindings, url)
    {
      url := "";
      var left := bindings.Keys;
      while left != {} && url == ""
        invariant left <= bindings.Keys
        invariant url == "" ==> forall a | a in bindings && a !in left :: bindings[a].routerUrl == ""
        invariant url != "" ==> Names(bindings, url)
        decreases |left|
      {
        var a :| a in left;
        url := bindings[a].routerUrl;
        left := left - {a};
      }
    }

    /** The router that the configuration names, or else one that an attachment names, or else one that an alias names,
        or else none. */
    ghost predicate Chosen(url: string)
      reads this
    {
      if routerUrl != "" then url == routerUrl
      else if !NoRouter(attached) then Names(attached, url)
      else if !NoRouter(aliases) then Names(aliases, url)
      else url == ""
    }

    ghost predicate RouterKnown()
      reads this
    {
      routerUrl != "" || !NoRouter(attached) || !NoRouter(aliases)
    }

    /** `effectiveRouter` finds a router whenever the configuration, an attachment or an alias names one. */
    method EffectiveRouter() returns (url: string)
      ensures Chosen(url) && (url != "" <==> RouterKnown())
    {
      url := routerUrl;
      if url == "" {
        url := AnyRouter(attached);
      }
      if url == "" {
        url := AnyRouter(aliases);
      }
    }

    /** `onAttach`: only an alias learned before can be attached; `readSecret` is the secret in hex. */
    method OnAttach(alias: Alias, readSecret: string, shardUrl: string, router: string) returns (reply: Reply)
      requires Coherent()
      modifies this`attached, this`aliases, this`routerUrl
      ensures Coherent() && (reply.NotStarted? <==> !running)
      ensures reply.Ack? <==>
                running && |alias| == 16 && |readSecret| == 64 && shardUrl != "" && alias in old(aliases)
      ensures reply.Ack? ==>
                var bind := Binding(old(aliases)[alias].mailboxId, readSecret, shardUrl, router);
                && attached == old(attached)[alias := bind] && aliases == old(aliases)[alias := bind]
                && routerUrl == (if old(routerUrl) == "" then router else old(routerUrl))
      ensures !reply.Ack? ==> attached == old(attached) && aliases == old(aliases) && routerUrl == old(routerUrl)
    {
      if !running {
        return NotStarted;
      }
      if |alias| != 16 || |readSecret| != 64 || shardUrl == "" {
        return Failure("rpc: bad attach");
      }
      var bind := ExpandAlias(alias);
      if bind.None? {
        return Failure("unknown mailbox alias");
      }
      attached := attached[alias := Binding(bind.value.mailboxId, readSecret, shardUrl, router)];
      if routerUrl == "" && router != "" {
        routerUrl := router;
      }
      aliases := aliases[alias := Binding(bind.value.mailboxId, readSecret, shardUrl, router)];
      return Ack;
    }

    method OnDetach(alias: Alias) returns (reply: Reply)
      requires Coherent()
      modifies this`attached
      ensures Coherent() && (reply.Ack? <==> |alias| == 16)
      ensures attached == if reply.Ack? then old(attached) - {alias} else old(attached)
    {
      if |alias| != 16 {
        return Failure("rpc: bad detach");
      }
      attached := attached - {alias};
      return Ack;
    }

    /** `onSend`: to an explicit alias and shard, or to a resolved recipient with fallback over its replicas, which is
        then remembered. A frame is posted exactly when the bridge runs, the frame is within bounds, and its address is
        known: the alias of an explicit one, or a 32-byte recipient that a known router resolves. Every post carries the
        frame in base64; the explicit one goes to the named shard and the mailbox that the alias stands for, the others
        to the candidates of the resolution in order, until one accepts. The shards hold one copy for the
        acknowledgement and one for every lost answer. */
    method OnSend(frame: seq<byte>, recipient: seq<byte>, alias: Alias, shardUrl: string,
                  resolve: string -> Option<Resolution>, send: (nat, Post) -> SendOutcome)
        returns (reply: Reply, posts: seq<Post>, router: string)
      requires Coherent()
      modifies this`aliases
      ensures Coherent()
      ensures reply.NotStarted? <==> !running
      ensures router == "" || old(Chosen(router))
      ensures posts != [] <==>
                && running && 0 < |frame| <= 40960
                && if Explicit(alias, shardUrl) then alias in old(aliases)
                   else |recipient| == 32 && old(RouterKnown()) && resolve(router).Some?
      ensures posts != [] && Explicit(alias, shardUrl) ==>
                posts == [Post(shardUrl, old(aliases)[alias].mailboxId, Base64.Encode(frame))]
      ensures posts != [] && !Explicit(alias, shardUrl) ==>
                router != "" && Fallback(posts, resolve(router).value, Base64.Encode(frame), reply)
      ensures aliases == if posts == [] || Explicit(alias, shardUrl) then old(aliases)
                         else Remembered(old(aliases), resolve(router).value, router)
      ensures reply.Ack? <==> posts != [] && send(|posts| - 1, posts[|posts| - 1]).Accepted?
      ensures posts != [] && !reply.Ack? ==> reply == Failure(send(|posts| - 1, posts[|posts| - 1]).error)
      ensures forall i | 0 <= i < |posts| - 1 :: !send(i, posts[i]).Accepted?
      ensures Copies(send, posts) == LostAnswers(send, posts) + (if reply.Ack? then 1 else 0)
      ensures Honest(send, posts) <==> Copies(send, posts) == if reply.Ack? then 1 else 0
    {
      hide Candidates, Fallback, PostsTo, Base64.Encode;
      posts, router := [], "";
      if !running {
        reply := NotStarted;
        return;
      }
      if frame == [] || |frame| > MAX_FRAME_BYTES {
        reply := Failure("rpc: frame out of bounds");
        return;
      }
      var encoded := Base64.Encode(frame);
      if Explicit(alias, shardUrl) {
        var bind := ExpandAlias(alias);
        if bind.None? {
          reply := Failure("unknown mailbox alias");
          return;
        }
        reply, posts := TryShards([shardUrl], bind.value.mailboxId, encoded, send);
        OnePost(shardUrl, bind.value.mailboxId, encoded, |posts|);
        return;
      }
      if |recipient| != 32 {
        reply := Failure("recipient_pub must be 32 bytes");
        return;
      }
      router := EffectiveRouter();
      if router == "" {
        reply := Failure("no router_url");
        return;
      }
      var res := resolve(router);
      if res.None? {
        reply := Failure("resolve failed");
        return;
      }
      var _ := Learn(Binding(res.value.mailboxId, "", res.value.shardUrl, router));
      var urls := CandidateShardUrls(res.value.shardUrl, res.value.replicas);
      assert |urls| > 0 by { SomeCandidate(urls, res.value.shardUrl, res.value.replicas); }
      reply, posts := TryShards(urls, res.value.mailboxId, encoded, send);
      FallbackIs(urls, posts, res.value, encoded, reply);
    }

    /** The alias map after a resolution: a full mailbox id is remembered under its alias, with its shard and router. */
    function Remembered(before: map<Alias, Binding>, res: Resolution, router: string): map<Alias, Binding> {
      if lib.full(res.mailboxId)
      then before[lib.aliasFor(res.mailboxId) := Binding(res.mailboxId, "", res.shardUrl, router)]
      else before
    }

    /** The mailboxes a poll reads: the named one if it is attached, or all of them in some order. */
    method Targets(mailbox: seq<byte>) returns (targets: seq<Alias>)
      ensures Distinct(targets)
      ensures forall a :: a in targets <==> a in attached && (|mailbox| == 16 ==> a == mailbox)
    {
      targets := [];
      if |mailbox| == 16 {
        if mailbox in attached {
          targets := [mailbox];
        }
        return;
      }
      var left := attached.Keys;
      while left != {}
        invariant left <= attached.Keys && Distinct(targets)
        invariant forall a :: a in targets <==> a in attached && a !in left
        decreases |left|
      {
        var a :| a in left;
        targets := targets + [a];
        left := left - {a};
      }
    }

    /** `onPoll`: each target is read once, from its shard, for its mailbox id and with its secret. */
    method OnPoll(mailbox: seq<byte>, read: (nat, Fetch) -> Outcome)
        returns (reply: PollReply, targets: seq<Alias>, fetches: seq<Fetch>)
      ensures !running ==> reply == NotReady && fetches == []
      ensures running ==> Distinct(targets) && |fetches| == |targets|
      ensures running ==> forall a :: a in targets <==> a in attached && (|mailbox| == 16 ==> a == mailbox)
      ensures running ==>
                forall i | 0 <= i < |targets| ::
                  && targets[i] in attached
                  && var bind := attached[targets[i]];
                     fetches[i] == Fetch(bind.shardUrl, bind.mailboxId, bind.readSecret)
      ensures running ==> reply == PollOf(lib, Heard(read, fetches))
    {
      if !running {
        return NotReady, [], [];
      }
      targets := Targets(mailbox);
      fetches := [];
      var frames, firstErr := [], None;
      for i := 0 to |targets|
        invariant |fetches| == i
        invariant forall j | 0 <= j < i ::
                    && targets[j] in attached
                    && var bind := attached[targets[j]];
                       fetches[j] == Fetch(bind.shardUrl, bind.mailboxId, bind.readSecret)
        invariant frames == DrainedFrames(lib, Heard(read, fetches)) && firstErr == FirstError(Heard(read, fetches))
      {
        assert targets[i] in targets;
        var mb := attached[targets[i]];
        var fetch := Fetch(mb.shardUrl, mb.mailboxId, mb.readSecret);
        DrainedPush(lib, Heard(read, fetches), read(i, fetch));
        assert (fetches + [fetch])[..i] == fetches;
        fetches := fetches + [fetch];
        match read(i, fetch) {
          case Drained(messages) =>
            var got := ReadFrames(lib, messages);
            frames := frames + got;
          case other =>
            if firstErr.None? {
              firstErr := Some(other.error);
            }
        }
      }
      if firstErr.Some? && |frames| == 0 {
        return PollError(firstErr.value), targets, fetches;
      }
      var blob, count := MarshalPollResult(frames);
      return PollResult(blob, count), targets, fetches;
    }
  }
}
