/** From courier to courier: a frame wrapped by one bridge, queued by a shard, drained by another bridge. */
module EndToEnd {
  import opened Bytes
  import Base64
  import Bridge
  import Framing
  import opened KeyValue
  import opened Shard
  import opened ShardRuns

  // ---------- the shard never refuses a frame for what it is ----------

  /** A layer-1 frame as the core sends it: a type byte 1..4 and at most 24576 bytes in all. */
  predicate CourierFrame(f: seq<byte>) {
    1 <= |f| <= 24576 && 1 <= f[0] <= 4
  }

  /** The characters a JSON text can begin with, white space included. */
  predicate JsonStart(c: char) {
    || c == '{' || c == '[' || c == '"' || c == '-' || '0' <= c <= '9' || c == 't' || c == 'f' || c == 'n'
    || c == ' ' || c == '\t' || c == '\n' || c == '\r'
  }

  predicate Ascii(s: string) {
    forall i | 0 <= i < |s| :: s[i] as int < 128
  }

  /** What is used of the library: JSON has a grammar, and UTF-8 spends one byte on an ASCII character. */
  ghost predicate SaneLib(lib: Lib) {
    && (forall m: string | lib.parse(m).Some? :: m != "" && JsonStart(m[0]))
    && (forall m: string | Ascii(m) :: lib.utf8Length(m) == |m|)
  }

  lemma PlainIsAscii(s: string)
    requires Base64.Plain(s)
    ensures Ascii(s)
  {
  }

  /** The wrapped frame: at most 32768 ASCII characters, and the first is A or B, so it is never JSON. */
  lemma WrappedShape(f: seq<byte>)
    requires CourierFrame(f)
    ensures var m := Base64.Encode(f);
      && 4 <= |m| == 4 * ((|f| + 2) / 3) <= 32768 && Ascii(m)
      && (m[0] == 'A' || m[0] == 'B') && !JsonStart(m[0])
  {
    Base64.EncodedLength(f);
    Base64.EncodePlain(f);
    PlainIsAscii(Base64.Encode(f));
    hide Ascii, Base64.Plain;
    FirstDigit(f);
    assert (|f| + 2) / 3 <= 8192;
  }

  lemma FirstDigit(f: seq<byte>)
    requires CourierFrame(f)
    ensures Base64.Encode(f) != "" && Base64.Encode(f)[0] == Base64.Digit(f[0] as int / 4)
  {
  }

  /** With the default size limit or a larger one, `/send` never answers 400 to a wrapped courier frame: neither its
      size nor its shape is refused. */
  lemma FrameNeverRefusedForItself(lib: Lib, cfg: Config, s: State, op: Op, now: int, f: seq<byte>)
    requires SaneLib(lib) && cfg.maxMsgBytes >= 32768 && CourierFrame(f)
    requires op.Send? && op.message == Base64.Encode(f)
    ensures Step(lib, cfg, s, op, now).0 != Refused(400)
  {
    WrappedShape(f);
    assert lib.parse(op.message).None?;
    assert EnvelopeOk(lib, op.message);
    hide CourierFrame, Ascii, EnvelopeOk, SenderAuth, RateLimit, Enqueue, Refreshed, SignedSend;
  }

  // ---------- what comes back ----------

  function Messages(es: seq<Entry>): (ms: seq<string>)
    ensures |ms| == |es|
  {
    seq(|es|, i requires 0 <= i < |es| => es[i].message)
  }

  /** Each entry carries the frame at its place. */
  predicate Carries(es: seq<Entry>, fs: seq<seq<byte>>) {
    |es| == |fs| && forall i | 0 <= i < |es| :: es[i].message == Base64.Encode(fs[i])
  }

  lemma OpensTo(b: Bridge.Lib, es: seq<Entry>, fs: seq<seq<byte>>)
    requires Carries(es, fs)
    ensures Bridge.OpenAll(b, Messages(es)) == fs
  {
    forall i | 0 <= i < |es| ensures Bridge.Open(b, Messages(es)[i]) == fs[i] {
      Base64.Base64RoundTrip(fs[i]);
    }
  }

  // ---------- a bridge against a shard ----------

  /** What the bridge makes of a shard's answer to `/send`, or of its absence. */
  function SendOutcome(reply: Reply, answered: bool): Bridge.SendOutcome {
    if reply.Sent? then (if answered then Bridge.Accepted else Bridge.Unconfirmed("no answer"))
    else Bridge.SendOutcome.Refused("refused")
  }

  /** What the bridge makes of a shard's answer to `/read`: an unknown mailbox counts as drained. */
  function ReadOutcome(reply: Reply, answered: bool): Bridge.Outcome {
    match reply
    case Messages(ms, _) => if answered then Bridge.Drained(Messages(ms)) else Bridge.Burned(Messages(ms), "no answer")
    case Refused(status) => if answered && status == 404 then Bridge.Drained([]) else Bridge.Failed("refused")
    case _ => Bridge.Failed("refused")
  }

  /** The shards of a mesh by URL, and what a bridge adds to its requests: how the n-th post is signed, the id the shard
      draws for it, and whether its answer arrives. */
  datatype World = World(shards: string -> State, auth: (nat, Bridge.Post) -> Auth, freshId: nat -> string,
                         answered: nat -> bool, ip: string, now: int)

  function PostOp(w: World, i: nat, p: Bridge.Post): Op {
    Send(p.mailboxId, p.message, w.auth(i, p), w.ip, w.freshId(i))
  }

  function FetchOp(w: World, f: Bridge.Fetch): Op {
    Read(f.mailboxId, f.readSecret, false, w.ip)
  }

  /** How the addressed shard answers the n-th post, and what it then holds. */
  function AnswerTo(lib: Lib, cfg: Config, w: World, i: nat, p: Bridge.Post): (Reply, State) {
    Step(lib, cfg, w.shards(p.url), PostOp(w, i, p), w.now)
  }

  /** The shard answers the n-th post with acceptance, and the answer arrives. */
  predicate Acknowledges(lib: Lib, cfg: Config, w: World, i: nat, p: Bridge.Post) {
    AnswerTo(lib, cfg, w, i, p).0.Sent? && w.answered(i)
  }

  /** The bridge's send loop against the shards. A frame is acknowledged exactly when it is posted and the shard asked
      last accepts and answers, none before it having done so; and then it is queued in the addressed mailbox of that
      shard, in an entry that opens to the frame. A frame within bounds for a known explicit address is posted once, to
      the shard named and the mailbox that the alias stands for; one for a recipient that a known router resolves goes
      to the candidates of the resolution in order, to all of them if it is not acknowledged. */
  method SendFrame(c: Bridge.Courier, lib: Lib, cfg: Config, w: World, frame: seq<byte>, recipient: seq<byte>,
                   alias: Bridge.Alias, shardUrl: string, resolve: string -> Option<Bridge.Resolution>)
      returns (reply: Bridge.Reply, posts: seq<Bridge.Post>, router: string)
    requires c.Coherent()
    modifies c`aliases
    ensures c.Coherent() && (router == "" || old(c.Chosen(router)))
    ensures posts != [] <==>
              && c.running && 0 < |frame| <= 40960
              && if Bridge.Explicit(alias, shardUrl) then alias in old(c.aliases)
                 else |recipient| == 32 && old(c.RouterKnown()) && resolve(router).Some?
    ensures posts != [] && Bridge.Explicit(alias, shardUrl) ==>
              && posts == [Bridge.Post(shardUrl, old(c.aliases)[alias].mailboxId, Base64.Encode(frame))]
              && (reply.Ack? <==> Acknowledges(lib, cfg, w, 0, posts[0]))
    ensures posts != [] && !Bridge.Explicit(alias, shardUrl) ==>
              Bridge.Fallback(posts, resolve(router).value, Base64.Encode(frame), reply)
    ensures reply.Ack? <==> posts != [] && Acknowledges(lib, cfg, w, |posts| - 1, posts[|posts| - 1])
    ensures forall i | 0 <= i < |posts| - 1 :: !Acknowledges(lib, cfg, w, i, posts[i])
    ensures reply.Ack? ==>
              var p := posts[|posts| - 1];
              var (answer, s') := AnswerTo(lib, cfg, w, |posts| - 1, p);
              answer.Sent? && LastHeld(s', p.mailboxId, answer.entry)
              && Base64.Decode(answer.entry.message) == Some(frame)
  {
    hide AnswerTo, Base64.Encode, Base64.Decode, Bridge.Candidates, Bridge.Fallback, Bridge.Honest, Bridge.Copies,
         LastHeld;
    var send := (i: nat, p: Bridge.Post) => SendOutcome(AnswerTo(lib, cfg, w, i, p).0, w.answered(i));
    reply, posts, router := c.OnSend(frame, recipient, alias, shardUrl, resolve, send);
    if posts != [] {
      ghost var i, p := |posts| - 1, posts[|posts| - 1];
      assert send(i, p) == SendOutcome(AnswerTo(lib, cfg, w, i, p).0, w.answered(i));
      assert p.message == Base64.Encode(frame) by { MessageOf(posts, frame, alias, shardUrl, resolve, router, reply); }
      if reply.Ack? {
        SentIsHeld(lib, cfg, w, i, p);
        Base64.Base64RoundTrip(frame);
      }
    }
    assert forall i | 0 <= i < |posts| - 1 ::
        send(i, posts[i]) == SendOutcome(AnswerTo(lib, cfg, w, i, posts[i]).0, w.answered(i));
  }

  lemma MessageOf(posts: seq<Bridge.Post>, frame: seq<byte>, alias: Bridge.Alias, shardUrl: string,
                  resolve: string -> Option<Bridge.Resolution>, router: string, reply: Bridge.Reply)
    requires posts != []
    requires || (exists id :: posts == [Bridge.Post(shardUrl, id, Base64.Encode(frame))])
             || (resolve(router).Some? && Bridge.Fallback(posts, resolve(router).value, Base64.Encode(frame), reply))
    ensures posts[|posts| - 1].message == Base64.Encode(frame)
  {
    hide Base64.Encode, Bridge.Candidates;
  }

  predicate LastHeld(s: State, k: string, e: Entry) {
    Held(s, k) != [] && Held(s, k)[|Held(s, k)| - 1] == e
  }

  lemma SentIsHeld(lib: Lib, cfg: Config, w: World, i: nat, p: Bridge.Post)
    requires AnswerTo(lib, cfg, w, i, p).0.Sent?
    ensures var (reply, s') := AnswerTo(lib, cfg, w, i, p);
            reply.entry.message == p.message && LastHeld(s', p.mailboxId, reply.entry)
  {
    StepStores(lib, cfg, w.shards(p.url), PostOp(w, i, p), w.now);
    hide Step, Visible;
  }

  /** The bridge's poll of one attached mailbox against its shard, which is asked once, to consume: the frames it handed
      out are gone from the shard, and are the reply if the answer arrived; an unknown mailbox is an empty one; anything
      else is an error. */
  method PollMailbox(c: Bridge.Courier, lib: Lib, cfg: Config, w: World, alias: Bridge.Alias)
      returns (reply: Bridge.PollReply, fetches: seq<Bridge.Fetch>)
    requires c.running && |alias| == 16 && alias in c.attached
    ensures var bind := c.attached[alias];
            var (answer, s') :=
              Step(lib, cfg, w.shards(bind.shardUrl), Read(bind.mailboxId, bind.readSecret, false, w.ip), w.now);
            && fetches == [Bridge.Fetch(bind.shardUrl, bind.mailboxId, bind.readSecret)]
            && (answer.Messages? ==> Held(s', bind.mailboxId) == [])
            && reply == if answer.Messages? && w.answered(0) then
                          var frames := Bridge.OpenAll(c.lib, Messages(answer.messages));
                          Bridge.PollResult(Framing.Frames(frames), |frames| % 0x1_0000_0000)
                        else if answer == Refused(404) && w.answered(0) then Bridge.PollResult([], 0)
                        else if answer.Messages? then Bridge.PollError("no answer")
                        else Bridge.PollError("refused")
  {
    hide Step, Bridge.PollOf;
    var read := (i: nat, f: Bridge.Fetch) =>
      ReadOutcome(Step(lib, cfg, w.shards(f.url), FetchOp(w, f), w.now).0, w.answered(i));
    var targets;
    reply, targets, fetches := c.OnPoll(alias, read);
    assert alias in targets && targets == [alias] by { OneTarget(targets, alias); }
    assert |fetches| == 1 && fetches == [fetches[0]];
    assert fetches[..0] == [];
    assert Bridge.Heard(read, fetches) == [] + [read(0, fetches[0])] == [read(0, fetches[0])];
    OneOutcome(c.lib, read(0, fetches[0]));
    ReadEmpties(lib, cfg, w.shards(fetches[0].url), FetchOp(w, fetches[0]), w.now);
    assert Bridge.OpenAll(c.lib, []) == [] && Framing.Frames([]) == [];
    ghost var bind := c.attached[alias];
    ghost var op := Read(bind.mailboxId, bind.readSecret, false, w.ip);
    ghost var (answer, _) := Step(lib, cfg, w.shards(bind.shardUrl), op, w.now);
    assert fetches == [Bridge.Fetch(bind.shardUrl, bind.mailboxId, bind.readSecret)];
    assert FetchOp(w, fetches[0]) == op;
    assert read(0, fetches[0]) == ReadOutcome(answer, w.answered(0));
  }

  lemma OneOutcome(b: Bridge.Lib, o: Bridge.Outcome)
    ensures Bridge.PollOf(b, [o]) ==
      match o
      case Drained(messages) =>
        var frames := Bridge.OpenAll(b, messages);
        Bridge.PollResult(Framing.Frames(frames), |frames| % 0x1_0000_0000)
      case other => Bridge.PollError(o.error)
  {
    assert Bridge.DrainedFrames(b, [o][1..]) == [] && Bridge.FirstError([o][1..]) == None;
    assert o.Drained? ==> Bridge.OpenAll(b, o.messages) + [] == Bridge.OpenAll(b, o.messages);
  }

  lemma ReadEmpties(lib: Lib, cfg: Config, s: State, op: Op, now: int)
    requires op.Read? && !op.peek
    ensures var (reply, s') := Step(lib, cfg, s, op, now);
            reply.Messages? ==> Held(s', op.id) == []
  {
    StepStores(lib, cfg, s, op, now);
    hide Step, Visible, Refreshed;
  }

  lemma OneTarget(targets: seq<Bridge.Alias>, alias: Bridge.Alias)
    requires Distinct(targets) && alias in targets && forall a | a in targets :: a == alias
    ensures targets == [alias]
  {
    if |targets| > 1 {
      FirstTwo(targets);
    }
  }

  lemma FirstTwo(targets: seq<Bridge.Alias>)
    requires Distinct(targets) && |targets| > 1
    ensures targets[0] in targets && targets[1] in targets && targets[0] != targets[1]
  {
  }

  // ---------- whole runs ----------

  /** A request, the frame it carries if it brings mail, and whether its answer arrives. */
  datatype Call = Call(t: Timed, frame: seq<byte>, answered: bool)

  /** Mail for `k` is a wrapped courier frame. */
  predicate Wraps(c: Call, k: string) {
    && (c.t.op.Send? && c.t.op.id == k ==> CourierFrame(c.frame) && c.t.op.message == Base64.Encode(c.frame))
    && (c.t.op.Replicate? && c.t.op.id == k ==> CourierFrame(c.frame) && c.t.op.entry.message == Base64.Encode(c.frame))
  }

  /** The history of mailbox `k`: the frames of the requests that brought mail and were accepted, the frames that the
      reading bridge got, one poll for each read, and how many frames were lost: gone stale, lapsed with the record, or
      burned by a read whose answer did not arrive. */
  datatype History = History(l: Ledger, posted: seq<seq<byte>>, collected: seq<seq<byte>>, lost: nat)

  function Collected(b: Bridge.Lib, k: string, c: Call, reply: Reply): seq<seq<byte>> {
    if c.t.op.Read? && c.t.op.id == k && !c.t.op.peek
    then (match Bridge.InReply(Bridge.PollOf(b, [ReadOutcome(reply, c.answered)])) case Some(fs) => fs case None => [])
    else []
  }

  function LostNow(cfg: Config, k: string, s: State, c: Call, reply: Reply): nat {
    |Removed(LapsedNow(s, k, c.t.now))| + |Removed(StaleNow(cfg, Visible(s, c.t.now), k, c.t.op, reply, c.t.now))|
    + (if c.answered then 0 else |Removed(ReturnedNow(k, c.t.op, reply))|)
  }

  function Advanced(lib: Lib, cfg: Config, b: Bridge.Lib, k: string, h: History, c: Call): History {
    var reply := Step(lib, cfg, h.l.state, c.t.op, c.t.now).0;
    History(Advance(lib, cfg, k, h.l, c.t),
            if AcceptedNow(k, c.t.op, reply) == [] then h.posted else h.posted + [c.frame],
            h.collected + Collected(b, k, c, reply),
            h.lost + LostNow(cfg, k, h.l.state, c, reply))
  }

  function Played(lib: Lib, cfg: Config, b: Bridge.Lib, k: string, h: History, cs: seq<Call>): History
    decreases |cs|
  {
    if cs == [] then h else Played(lib, cfg, b, k, Advanced(lib, cfg, b, k, h, cs[0]), cs[1..])
  }

  function Opened(b: Bridge.Lib, es: seq<Entry>): (fs: seq<seq<byte>>)
    ensures |fs| == |es|
  {
    Bridge.OpenAll(b, Messages(es))
  }

  lemma OpenedAppend(b: Bridge.Lib, x: seq<Entry>, y: seq<Entry>)
    ensures Opened(b, x + y) == Opened(b, x) + Opened(b, y)
  {
    hide Bridge.Open;
    assert forall i | 0 <= i < |x| + |y| :: Messages(x + y)[i] == (Messages(x) + Messages(y))[i];
  }

  /** Every accepted entry opens to its frame; no frame is counted twice or forgotten; and while nothing is lost, what
      was collected and what is queued are the posted frames in order. */
  ghost predicate Kept(b: Bridge.Lib, k: string, h: History) {
    && Balanced([], k, h.l) && Bridge.Sized(h.posted)
    && Opened(b, h.l.accepted) == h.posted
    && |h.posted| == |h.collected| + |Held(h.l.state, k)| + h.lost
    && (h.lost == 0 ==> h.collected + Opened(b, Held(h.l.state, k)) == h.posted)
  }

  /** An answered read puts what it drained into the reply, and nothing else does. */
  lemma PollOfOne(b: Bridge.Lib, o: Bridge.Outcome)
    requires o.Drained? ==> Bridge.Sized(Bridge.OpenAll(b, o.messages))
    ensures Bridge.InReply(Bridge.PollOf(b, [o])) == Some(if o.Drained? then Bridge.OpenAll(b, o.messages) else [])
  {
    hide Bridge.OpenAll, Bridge.PollOf, Bridge.Unframe, Framing.Frames, Bridge.Sized;
    OneOutcome(b, o);
    if o.Drained? {
      Bridge.UnframeExact(Bridge.OpenAll(b, o.messages));
    }
  }

  lemma CollectedIs(lib: Lib, cfg: Config, b: Bridge.Lib, k: string, s: State, c: Call)
    requires Bridge.Sized(Opened(b, Held(Visible(s, c.t.now), k)))
    ensures var reply := Step(lib, cfg, s, c.t.op, c.t.now).0;
            Collected(b, k, c, reply)
            == if c.answered then Opened(b, Removed(ReturnedNow(k, c.t.op, reply))) else []
  {
    StepStores(lib, cfg, s, c.t.op, c.t.now);
    hide Step, Visible, Bridge.PollOf, Bridge.InReply, Removed, Bridge.OpenAll;
    var reply := Step(lib, cfg, s, c.t.op, c.t.now).0;
    RemovedNone();
    assert Opened(b, []) == [];
    if c.t.op.Read? && c.t.op.id == k && !c.t.op.peek {
      if reply.Messages? {
        RemovedOne(Returned(reply.messages));
        assert reply.messages == [] || reply.messages == Held(Visible(s, c.t.now), k);
        assert Bridge.Sized(Opened(b, reply.messages));
      }
      assert Bridge.Sized(Bridge.OpenAll(b, [])) && Bridge.OpenAll(b, []) == [];
      PollOfOne(b, ReadOutcome(reply, c.answered));
    }
  }

  lemma AcceptedCarries(lib: Lib, cfg: Config, b: Bridge.Lib, k: string, s: State, c: Call)
    requires Wraps(c, k)
    ensures var came := AcceptedNow(k, c.t.op, Step(lib, cfg, s, c.t.op, c.t.now).0);
            came == [] || (Opened(b, came) == [c.frame] && CourierFrame(c.frame))
  {
    StepStores(lib, cfg, s, c.t.op, c.t.now);
    hide Step, Visible, CourierFrame;
    var came := AcceptedNow(k, c.t.op, Step(lib, cfg, s, c.t.op, c.t.now).0);
    if came != [] {
      assert Carries(came, [c.frame]);
      OpensTo(b, came, [c.frame]);
    }
  }

  lemma SizedSplit(a: seq<seq<byte>>, c: seq<seq<byte>>)
    ensures Bridge.Sized(a + c) <==> Bridge.Sized(a) && Bridge.Sized(c)
  {
    if Bridge.Sized(a + c) {
      assert forall i | 0 <= i < |a| :: (a + c)[i] == a[i];
      assert forall i | 0 <= i < |c| :: (a + c)[|a| + i] == c[i];
    }
  }

  /** The step, on frames: `held` is what lapses and what is visible, and the visible and the new mail are what goes
      stale, what is returned, and what is held after. */
  lemma Carry<T>(collected: seq<T>, held: seq<T>, posted: seq<T>, lapsed: seq<T>, visible: seq<T>, came: seq<T>,
                 stale: seq<T>, returned: seq<T>, held': seq<T>)
    requires held == lapsed + visible && visible + came == stale + returned + held'
    requires collected + held == posted && lapsed == [] && stale == []
    ensures collected + returned + held' == posted + came
  {
    assert [] + visible == visible && [] + returned == returned;
    Assoc(collected, visible, came);
    Assoc(collected, returned, held');
  }

  lemma StepSplits(lib: Lib, cfg: Config, b: Bridge.Lib, k: string, s: State, c: Call)
    ensures var v := Visible(s, c.t.now);
            var (reply, s') := Step(lib, cfg, s, c.t.op, c.t.now);
            && Opened(b, Held(s, k)) == Opened(b, Removed(LapsedNow(s, k, c.t.now))) + Opened(b, Held(v, k))
            && Opened(b, Held(v, k)) + Opened(b, AcceptedNow(k, c.t.op, reply))
               == Opened(b, Removed(StaleNow(cfg, v, k, c.t.op, reply, c.t.now)))
                  + Opened(b, Removed(ReturnedNow(k, c.t.op, reply))) + Opened(b, Held(s', k))
  {
    hide Step, Visible, Removed, Held, LapsedNow, StaleNow, ReturnedNow, AcceptedNow, Opened;
    var v := Visible(s, c.t.now);
    var (reply, s') := Step(lib, cfg, s, c.t.op, c.t.now);
    LapseBalance(s, k, c.t.now);
    StepBalance(lib, cfg, k, s, c.t.op, c.t.now);
    var stale, returned := StaleNow(cfg, v, k, c.t.op, reply, c.t.now), ReturnedNow(k, c.t.op, reply);
    RemovedAppend(stale, returned);
    OpenedAppend(b, Removed(LapsedNow(s, k, c.t.now)), Held(v, k));
    OpenedAppend(b, Held(v, k), AcceptedNow(k, c.t.op, reply));
    OpenedAppend(b, Removed(stale), Removed(returned));
    OpenedAppend(b, Removed(stale) + Removed(returned), Held(s', k));
  }

  lemma HeldSized(b: Bridge.Lib, k: string, h: History, now: int)
    requires Kept(b, k, h)
    ensures Bridge.Sized(Opened(b, Held(h.l.state, k))) && Bridge.Sized(Opened(b, Held(Visible(h.l.state, now), k)))
  {
    hide Removed, Held, Visible, LapsedNow, Opened, Bridge.Sized;
    assert [] + h.l.accepted == h.l.accepted;
    OpenedAppend(b, Removed(h.l.removed), Held(h.l.state, k));
    SizedSplit(Opened(b, Removed(h.l.removed)), Opened(b, Held(h.l.state, k)));
    LapseBalance(h.l.state, k, now);
    OpenedAppend(b, Removed(LapsedNow(h.l.state, k, now)), Held(Visible(h.l.state, now), k));
    SizedSplit(Opened(b, Removed(LapsedNow(h.l.state, k, now))), Opened(b, Held(Visible(h.l.state, now), k)));
  }

  lemma AdvancedKept(lib: Lib, cfg: Config, b: Bridge.Lib, k: string, h: History, c: Call)
    requires Kept(b, k, h) && Wraps(c, k)
    ensures Kept(b, k, Advanced(lib, cfg, b, k, h, c))
  {
    hide Step, Visible, Removed, Held, LapsedNow, StaleNow, ReturnedNow, AcceptedNow, Opened, Collected, Balanced,
         Bridge.Sized, Wraps, CourierFrame;
    var s, now := h.l.state, c.t.now;
    var v := Visible(s, now);
    var (reply, s') := Step(lib, cfg, s, c.t.op, now);
    AdvanceBalanced(lib, cfg, k, [], h.l, c.t);
    HeldSized(b, k, h, now);
    CollectedIs(lib, cfg, b, k, s, c);
    AcceptedCarries(lib, cfg, b, k, s, c);
    StepSplits(lib, cfg, b, k, s, c);
    var came := AcceptedNow(k, c.t.op, reply);
    OpenedAppend(b, h.l.accepted, came);
    assert Opened(b, []) == [] && h.posted + [] == h.posted && h.collected + [] == h.collected by { OpenedNone(b); }
    if came != [] {
      SizedOne(h.posted, c.frame);
    }
    var h' := Advanced(lib, cfg, b, k, h, c);
    assert h'.posted == h.posted + Opened(b, came);
    var returned := Opened(b, Removed(ReturnedNow(k, c.t.op, reply)));
    if h'.lost == 0 {
      assert h'.collected == h.collected + returned;
      var lapsed, stale := Removed(LapsedNow(s, k, now)), Removed(StaleNow(cfg, v, k, c.t.op, reply, now));
      Carry(h.collected, Opened(b, Held(s, k)), h.posted, Opened(b, lapsed), Opened(b, Held(v, k)), Opened(b, came),
            Opened(b, stale), returned, Opened(b, Held(s', k)));
    }
  }

  lemma OpenedNone(b: Bridge.Lib)
    ensures Opened(b, []) == []
  {
  }

  lemma SizedOne(fs: seq<seq<byte>>, f: seq<byte>)
    requires Bridge.Sized(fs) && CourierFrame(f)
    ensures Bridge.Sized(fs + [f])
  {
  }

  lemma {:induction false} PlayedKept(lib: Lib, cfg: Config, b: Bridge.Lib, k: string, h: History, cs: seq<Call>)
    requires Kept(b, k, h) && forall i | 0 <= i < |cs| :: Wraps(cs[i], k)
    ensures Kept(b, k, Played(lib, cfg, b, k, h, cs))
    decreases |cs|
  {
    hide Kept, Advanced, Wraps;
    if cs != [] {
      AdvancedKept(lib, cfg, b, k, h, cs[0]);
      PlayedKept(lib, cfg, b, k, Advanced(lib, cfg, b, k, h, cs[0]), cs[1..]);
    }
  }

  function NoHistory(): History {
    History(ShardRuns.Fresh(), [], [], 0)
  }

  /** End to end: over any run of requests on a shard in which mail for `k` is wrapped frames, with answers that
      arrive or do not, the frames that the reading bridge got from its polls, followed by those still queued, are the
      frames posted and accepted, byte for byte and in order, if and only if none went stale, lapsed, or was burned
      without an answer; and the frames missing are exactly those. */
  lemma FramesArrive(lib: Lib, cfg: Config, b: Bridge.Lib, k: string, cs: seq<Call>)
    requires forall i | 0 <= i < |cs| :: Wraps(cs[i], k)
    ensures var h := Played(lib, cfg, b, k, NoHistory(), cs);
            && (h.collected + Opened(b, Held(h.l.state, k)) == h.posted <==> h.lost == 0)
            && |h.collected| + |Held(h.l.state, k)| + h.lost == |h.posted|
  {
    hide Played, Opened, Held, Balanced;
    FreshKept(b, k);
    PlayedKept(lib, cfg, b, k, NoHistory(), cs);
    var h := Played(lib, cfg, b, k, NoHistory(), cs);
    assert |h.collected + Opened(b, Held(h.l.state, k))| == |h.collected| + |Held(h.l.state, k)| by {
      OpenedLength(b, Held(h.l.state, k));
    }
  }

  lemma OpenedLength(b: Bridge.Lib, es: seq<Entry>)
    ensures |Opened(b, es)| == |es|
  {
  }

  lemma FreshKept(b: Bridge.Lib, k: string)
    ensures Kept(b, k, NoHistory())
  {
    assert [] + ShardRuns.Fresh().accepted == Removed([]) + Held(ShardRuns.Fresh().state, k);
    OpenedNone(b);
  }

  // ---------- several shards ----------

  /** A request to one shard of a mesh. */
  datatype Routed = Routed(url: string, call: Call)

  function Project(url: string, ms: seq<Routed>): seq<Call> {
    if ms == [] then [] else (if ms[0].url == url then [ms[0].call] else []) + Project(url, ms[1..])
  }

  function HistoryAt(hs: map<string, History>, url: string): History {
    if url in hs then hs[url] else NoHistory()
  }

  function MeshStep(lib: Lib, cfg: Config, b: Bridge.Lib, k: string, hs: map<string, History>, r: Routed)
    : map<string, History>
  {
    hs[r.url := Advanced(lib, cfg, b, k, HistoryAt(hs, r.url), r.call)]
  }

  function MeshPlayed(lib: Lib, cfg: Config, b: Bridge.Lib, k: string, hs: map<string, History>, ms: seq<Routed>)
    : map<string, History>
    decreases |ms|
  {
    if ms == [] then hs else MeshPlayed(lib, cfg, b, k, MeshStep(lib, cfg, b, k, hs, ms[0]), ms[1..])
  }

  /** What happens at one shard of a mesh is the run of the requests that it gets. */
  lemma {:induction false} MeshIsLocal(lib: Lib, cfg: Config, b: Bridge.Lib, k: string, hs: map<string, History>,
                                       ms: seq<Routed>, url: string)
    ensures HistoryAt(MeshPlayed(lib, cfg, b, k, hs, ms), url)
         == Played(lib, cfg, b, k, HistoryAt(hs, url), Project(url, ms))
    decreases |ms|
  {
    hide Advanced;
    if ms != [] {
      var hs' := MeshStep(lib, cfg, b, k, hs, ms[0]);
      MeshIsLocal(lib, cfg, b, k, hs', ms[1..], url);
      if ms[0].url == url {
        var rest := Project(url, ms[1..]);
        assert ([ms[0].call] + rest)[1..] == rest;
      } else {
        assert [] + Project(url, ms[1..]) == Project(url, ms[1..]);
      }
    } else {
      assert Project(url, ms) == [];
    }
  }

  /** A shard accepts an entry: its own `/send` made it, or it takes a replication of it. */
  predicate TakesEntry(k: string, op: Op, reply: Reply, e: Entry) {
    && op.id == k
    && ((op.Send? && reply.Sent? && reply.entry == e)
        || (op.Replicate? && op.entry == e && reply == Replicated(false)))
  }

  /** Whether the shard at `url` accepts the entry in the course of a run. */
  predicate Took(lib: Lib, cfg: Config, b: Bridge.Lib, k: string, hs: map<string, History>, ms: seq<Routed>,
                 url: string, e: Entry)
    decreases |ms|
  {
    && ms != []
    && ((ms[0].url == url
         && TakesEntry(k, ms[0].call.t.op,
                       Step(lib, cfg, HistoryAt(hs, url).l.state, ms[0].call.t.op, ms[0].call.t.now).0, e))
        || Took(lib, cfg, b, k, MeshStep(lib, cfg, b, k, hs, ms[0]), ms[1..], url, e))
  }

  lemma StepTakes(lib: Lib, cfg: Config, b: Bridge.Lib, k: string, h: History, c: Call, e: Entry)
    ensures e in Advanced(lib, cfg, b, k, h, c).l.accepted
       <==> e in h.l.accepted || TakesEntry(k, c.t.op, Step(lib, cfg, h.l.state, c.t.op, c.t.now).0, e)
  {
    StepStores(lib, cfg, h.l.state, c.t.op, c.t.now);
    hide Step, Visible, Removed, Collected, LostNow, LapsedNow, StaleNow, ReturnedNow;
  }

  lemma {:induction false} AcceptedIsTaken(lib: Lib, cfg: Config, b: Bridge.Lib, k: string, hs: map<string, History>,
                                           ms: seq<Routed>, url: string, e: Entry)
    ensures e in HistoryAt(MeshPlayed(lib, cfg, b, k, hs, ms), url).l.accepted
       <==> e in HistoryAt(hs, url).l.accepted || Took(lib, cfg, b, k, hs, ms, url, e)
    decreases |ms|
  {
    hide Advanced, TakesEntry, Step;
    if ms != [] {
      AcceptedIsTaken(lib, cfg, b, k, MeshStep(lib, cfg, b, k, hs, ms[0]), ms[1..], url, e);
      StepTakes(lib, cfg, b, k, HistoryAt(hs, ms[0].url), ms[0].call, e);
    }
  }

  lemma {:induction false} ProjectWraps(url: string, ms: seq<Routed>, k: string)
    requires forall i | 0 <= i < |ms| :: Wraps(ms[i].call, k)
    ensures forall i | 0 <= i < |Project(url, ms)| :: Wraps(Project(url, ms)[i], k)
  {
    hide Wraps;
    if ms != [] {
      ProjectWraps(url, ms[1..], k);
    }
  }

  /** Fallback and replication over a mesh: an entry, acknowledged by whichever shard, passes through the attached
      shard if and only if that shard accepted it or took its replication in the course of the run; and if nothing was
      lost there, its frame is then in its place among the frames collected from that shard and those still queued
      there. */
  lemma AcknowledgedIsCollected(lib: Lib, cfg: Config, b: Bridge.Lib, k: string, ms: seq<Routed>, home: string,
                                e: Entry, f: seq<byte>)
    requires (forall i | 0 <= i < |ms| :: Wraps(ms[i].call, k)) && e.message == Base64.Encode(f)
    ensures var h := HistoryAt(MeshPlayed(lib, cfg, b, k, map[], ms), home);
            var took, got := Took(lib, cfg, b, k, map[], ms, home, e), h.collected + Opened(b, Held(h.l.state, k));
            && (took <==> e in Removed(h.l.removed) + Held(h.l.state, k))
            && (h.lost == 0 ==>
                  && |got| == |h.l.accepted|
                  && (took <==> exists p :: 0 <= p < |got| && h.l.accepted[p] == e && got[p] == f))
  {
    hide MeshPlayed, Played, Took, Wraps, Project, Opened, Held, Removed;
    ProjectWraps(home, ms, k);
    MeshIsLocal(lib, cfg, b, k, map[], ms, home);
    FreshKept(b, k);
    PlayedKept(lib, cfg, b, k, NoHistory(), Project(home, ms));
    AcceptedIsTaken(lib, cfg, b, k, map[], ms, home, e);
    var h := HistoryAt(MeshPlayed(lib, cfg, b, k, map[], ms), home);
    FromNothing(k, h.l);
    if h.lost == 0 && e in h.l.accepted {
      var p :| 0 <= p < |h.l.accepted| && h.l.accepted[p] == e;
      OpensAt(b, h.l.accepted, p, f);
    }
  }

  lemma FromNothing(k: string, l: Ledger)
    requires Balanced([], k, l)
    ensures l.accepted == Removed(l.removed) + Held(l.state, k)
  {
    hide Removed, Held;
    assert [] + l.accepted == l.accepted;
  }

  lemma OpensAt(b: Bridge.Lib, es: seq<Entry>, p: nat, f: seq<byte>)
    requires p < |es| && es[p].message == Base64.Encode(f)
    ensures Opened(b, es)[p] == f
  {
    Base64.Base64RoundTrip(f);
    hide Base64.Decode;
  }
}
