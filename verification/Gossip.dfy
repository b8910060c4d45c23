/**
  * N nodes over a radio that may lose, duplicate, reorder and delay frames.
  * The air keeps every frame ever sent: a frame is lost when it is never delivered.
  */
module Gossip {
  import opened Wrappers
  import opened Messages
  import opened VectorClock
  import opened Fragmentation
  import opened Node

  /** posted is a history variable: every message any client ever posted, by id. */
  datatype Net = Net(nodes: map<Callsign, NodeState>, air: set<Frame>, posted: Store)

  datatype Action =
    | PostMsg(me: Callsign, draft: Draft)
    | Deliver(me: Callsign, frame: Frame)
    | Broadcast(me: Callsign)
    | Transmit(me: Callsign, frame: Frame)
    | DropRow(me: Callsign, frame: Frame)
    | ForgetSeen(me: Callsign, gone: set<SeenKey>)
    | ExpirePartials(me: Callsign, ids: set<MsgId>)
    | Reboot(me: Callsign)

  ghost predicate RoundTrips(codec: Codec, m: Msg) {
    codec.decode(codec.encode(m)) == Some(m)
  }

  /**
    * The premises on a post: a new id is new network-wide (ids are injective over posts) and the
    * serializer round-trips the message. An id the node itself already holds is the error path.
    */
  ghost predicate CanPost(cfg: Config, s: Net, me: Callsign, d: Draft)
    requires me in s.nodes
  {
    d.id in s.nodes[me].store || (d.id !in s.posted && RoundTrips(cfg.codec, Compose(s.nodes[me], me, d)))
  }

  ghost predicate Enabled(cfg: Config, s: Net, a: Action) {
    && a.me in s.nodes
    && match a
       case PostMsg(me, d) => CanPost(cfg, s, me, d)
       case Deliver(_, f) => f in s.air
       case Transmit(me, f) => f in s.nodes[me].queue
       case _ => true
  }

  /** The new state of the node that acts. */
  ghost function Local(cfg: Config, s: Net, a: Action): NodeState
    requires a.me in s.nodes
  {
    var n := s.nodes[a.me];
    match a
    case PostMsg(me, d) => if Post(cfg, n, me, d).Ok? then Post(cfg, n, me, d).value else n
    case Deliver(me, f) => Receive(cfg, n, me, f)
    case Broadcast(me) => BroadcastSvec(n, me)
    case Transmit(_, _) => n
    case DropRow(_, f) => DropFrame(n, f)
    case ForgetSeen(_, gone) => Forget(n, gone)
    case ExpirePartials(_, ids) => ExpireCollectors(n, ids)
    case Reboot(_) => Restart(n)
  }

  ghost function Step(cfg: Config, s: Net, a: Action): Net
    requires a.me in s.nodes
  {
    var air := if a.Transmit? then s.air + {a.frame} else s.air;
    var posted :=
      if a.PostMsg? && Post(cfg, s.nodes[a.me], a.me, a.draft).Ok?
      then s.posted[a.draft.id := Compose(s.nodes[a.me], a.me, a.draft)]
      else s.posted;
    Net(s.nodes[a.me := Local(cfg, s, a)], air, posted)
  }

  ghost predicate Valid(cfg: Config, s: Net, acts: seq<Action>)
    decreases |acts|
  {
    acts == [] || (Enabled(cfg, s, acts[0]) && Valid(cfg, Step(cfg, s, acts[0]), acts[1..]))
  }

  ghost function Exec(cfg: Config, s: Net, acts: seq<Action>): Net
    requires Valid(cfg, s, acts)
    decreases |acts|
  {
    if acts == [] then s else Exec(cfg, Step(cfg, s, acts[0]), acts[1..])
  }

  ghost predicate IsInit(s: Net) {
    && (forall c :: c in s.nodes ==> s.nodes[c] == EMPTY_NODE)
    && s.air == {}
    && s.posted == map[]
  }

  ghost predicate Reachable(cfg: Config, s: Net) {
    exists s0, acts :: IsInit(s0) && Valid(cfg, s0, acts) && s == Exec(cfg, s0, acts)
  }

  // ---- the invariant ----

  /** Reassembly of this message is possible. */
  ghost predicate Fits(cfg: Config, m: Msg) {
    |FragmentsOf(m, cfg.threshold, cfg.codec)| <= MAX_FRAGMENTS
  }

  ghost predicate PostOk(cfg: Config, peers: set<Callsign>, posted: Store, id: MsgId)
    requires id in posted
  {
    posted[id].id == id && posted[id].from in peers && posted[id].seqNo.Some? && RoundTrips(cfg.codec, posted[id])
  }

  /** The two posts are one, or differ in (from_node, seq). */
  ghost predicate SlotsDiffer(posted: Store, a: MsgId, b: MsgId)
    requires a in posted && b in posted
  {
    a == b || posted[a].from != posted[b].from || posted[a].seqNo != posted[b].seqNo
  }

  ghost predicate PostedOk(cfg: Config, peers: set<Callsign>, posted: Store) {
    && (forall id {:trigger PostOk(cfg, peers, posted, id)} :: id in posted ==> PostOk(cfg, peers, posted, id))
    && (forall a, b {:trigger SlotsDiffer(posted, a, b)} :: a in posted && b in posted ==> SlotsDiffer(posted, a, b))
    && (forall c :: c in peers ==> Gapless(SeqsOf(posted, c)))
  }

  ghost predicate PartialOk(cfg: Config, posted: Store, id: MsgId, p: Partial) {
    && id in posted
    && var frags := FragmentsOf(posted[id], cfg.threshold, cfg.codec);
    && p.total == |frags| <= MAX_FRAGMENTS
    && |p.parts| < p.total
    && forall i :: i in p.parts ==> 0 <= i < p.total && p.parts[i] == frags[i].data
  }

  ghost predicate NodeOk(cfg: Config, posted: Store, me: Callsign, n: NodeState) {
    && SubStore(n.store, posted)
    && (forall id :: id in posted && posted[id].from == me ==> id in n.store)
    && (forall id :: id in n.store && n.store[id].from != me ==> Fits(cfg, n.store[id]))
    && (forall id :: MsgKey(id) in n.seen ==> id in n.store)
    && (forall id, i :: FragKey(id, i) in n.seen ==> id in posted)
    && (forall id {:trigger PartialOk(cfg, posted, id, n.partials[id])} ::
          id in n.partials ==> PartialOk(cfg, posted, id, n.partials[id]))
  }

  /** A clock never promises more than its sender now holds. */
  ghost predicate VectorOk(store: Store, vector: Vector) {
    forall c :: c in vector ==> 0 < vector[c] <= ClockAt(store, c)
  }

  ghost predicate FrameOk(cfg: Config, s: Net, f: Frame) {
    match f
    case MsgF(m) => m.id in s.posted && s.posted[m.id] == m && FragmentsOf(m, cfg.threshold, cfg.codec) == []
    case FragF(g) =>
      && g.id in s.posted
      && var frags := FragmentsOf(s.posted[g.id], cfg.threshold, cfg.codec);
      && 0 <= g.idx < |frags| && g == frags[g.idx]
    case SvecF(sender, vector) => sender in s.nodes && VectorOk(s.nodes[sender].store, vector)
  }

  ghost predicate QueueOk(cfg: Config, s: Net, frames: set<Frame>) {
    forall f :: f in frames ==> FrameOk(cfg, s, f)
  }

  ghost predicate Inv(cfg: Config, s: Net) {
    && PostedOk(cfg, s.nodes.Keys, s.posted)
    && (forall c {:trigger NodeOk(cfg, s.posted, c, s.nodes[c])} :: c in s.nodes ==> NodeOk(cfg, s.posted, c, s.nodes[c]))
    && (forall c {:trigger QueueOk(cfg, s, s.nodes[c].queue)} :: c in s.nodes ==> QueueOk(cfg, s, s.nodes[c].queue))
    && QueueOk(cfg, s, s.air)
  }

  // ---- every step keeps it ----

  /** What any step does to the tables: no node loses a row, and only a post adds to the history. */
  ghost predicate Grows(s: Net, t: Net) {
    && t.nodes.Keys == s.nodes.Keys
    && SubStore(s.posted, t.posted)
    && forall c :: c in s.nodes ==> SubStore(s.nodes[c].store, t.nodes[c].store)
  }

  /** Frames stay good as messages are added. */
  lemma FrameOkGrows(cfg: Config, s: Net, t: Net, f: Frame)
    requires FrameOk(cfg, s, f) && Grows(s, t)
    ensures FrameOk(cfg, t, f)
  {
    if f.SvecF? {
      forall c | c in f.vector
        ensures 0 < f.vector[c] <= ClockAt(t.nodes[f.sender].store, c)
      {
        ClockMonotone(s.nodes[f.sender].store, t.nodes[f.sender].store, c);
      }
    }
  }

  lemma QueueOkGrows(cfg: Config, s: Net, t: Net, frames: set<Frame>)
    requires QueueOk(cfg, s, frames) && Grows(s, t)
    ensures QueueOk(cfg, t, frames)
  {
    forall f | f in frames
      ensures FrameOk(cfg, t, f)
    {
      FrameOkGrows(cfg, s, t, f);
    }
  }

  /** A node may change its own state as long as the new state is good and its table only grows. */
  lemma NodeChange(cfg: Config, s: Net, me: Callsign, n: NodeState, air: set<Frame>)
    requires Inv(cfg, s) && me in s.nodes
    requires NodeOk(cfg, s.posted, me, n)
    requires SubStore(s.nodes[me].store, n.store)
    requires QueueOk(cfg, s, n.queue)
    requires QueueOk(cfg, s, air)
    ensures var t := Net(s.nodes[me := n], air, s.posted);
            Inv(cfg, t) && Grows(s, t)
  {
    var t := Net(s.nodes[me := n], air, s.posted);
    assert t.nodes.Keys == s.nodes.Keys;
    forall c | c in t.nodes
      ensures NodeOk(cfg, t.posted, c, t.nodes[c])
      ensures QueueOk(cfg, t, t.nodes[c].queue)
    {
      assert NodeOk(cfg, s.posted, c, s.nodes[c]);
      assert QueueOk(cfg, s, s.nodes[c].queue);
      QueueOkGrows(cfg, s, t, t.nodes[c].queue);
    }
    QueueOkGrows(cfg, s, t, air);
  }

  /** The frames that carry a posted message are good frames. */
  lemma FramesForOk(cfg: Config, s: Net, m: Msg, f: Frame)
    requires m.id in s.posted && s.posted[m.id] == m
    requires f in FramesFor(cfg, m)
    ensures FrameOk(cfg, s, f)
  {
    var frags := FragmentsOf(m, cfg.threshold, cfg.codec);
    if |frags| > 0 {
      var i :| 0 <= i < |FramesFor(cfg, m)| && FramesFor(cfg, m)[i] == f;
      assert f == FragF(frags[i]);
    }
  }

  /** A posted message always finds its row free: the pair (from_node, seq) is never taken by another. */
  lemma NoConflict(cfg: Config, peers: set<Callsign>, posted: Store, store: Store, m: Msg)
    requires PostedOk(cfg, peers, posted) && SubStore(store, posted)
    requires m.id in posted && posted[m.id] == m
    ensures m.id !in store ==> !SeqTaken(store, m)
  {
    forall id | id in store && id != m.id
      ensures store[id].from != m.from || store[id].seqNo != m.seqNo
    {
      assert SlotsDiffer(posted, id, m.id);
    }
  }

  lemma HandleMsgOk(cfg: Config, s: Net, me: Callsign, n: NodeState, m: Msg)
    requires PostedOk(cfg, s.nodes.Keys, s.posted) && NodeOk(cfg, s.posted, me, n)
    requires m.id in s.posted && s.posted[m.id] == m && Fits(cfg, m)
    ensures NodeOk(cfg, s.posted, me, HandleMsg(cfg, n, me, m))
    ensures SubStore(n.store, HandleMsg(cfg, n, me, m).store)
    ensures m.id in HandleMsg(cfg, n, me, m).store
    ensures forall f :: f in HandleMsg(cfg, n, me, m).queue - n.queue ==> f in FramesFor(cfg, m)
  {
    NoConflict(cfg, s.nodes.Keys, s.posted, n.store, m);
  }

  /** The fragments of a message, all present and joined, are its encoding. */
  lemma WholeJoins(cfg: Config, m: Msg, parts: map<int, seq<byte>>)
    requires var frags := FragmentsOf(m, cfg.threshold, cfg.codec);
             |frags| > 0 && forall i :: 0 <= i < |frags| ==> i in parts && parts[i] == frags[i].data
    ensures JoinFrom(parts, 0, |FragmentsOf(m, cfg.threshold, cfg.codec)|) == cfg.codec.encode(m) != []
  {
    var data := cfg.codec.encode(m);
    var cs := Chunks(data, FragmentSize(cfg.threshold));
    assert forall i :: 0 <= i < |cs| ==> FragmentsOf(m, cfg.threshold, cfg.codec)[i].data == cs[i];
    JoinIsFlatten(parts, cs, 0);
    ChunksJoin(data, FragmentSize(cfg.threshold));
    assert cs[0..] == cs;
  }

  ghost predicate IsFragOf(cfg: Config, m: Msg, g: Frag) {
    var frags := FragmentsOf(m, cfg.threshold, cfg.codec);
    0 <= g.idx < |frags| <= MAX_FRAGMENTS && g == frags[g.idx]
  }

  /** The collector only ever holds the message's own pieces. */
  lemma OfferHolds(cfg: Config, posted: Store, ps: Partials, g: Frag)
    requires g.id in posted && posted[g.id].id == g.id && IsFragOf(cfg, posted[g.id], g)
    requires g.id in ps ==> PartialOk(cfg, posted, g.id, ps[g.id])
    ensures var frags := FragmentsOf(posted[g.id], cfg.threshold, cfg.codec);
            var q := Offer(ps, g);
            && q.total == g.total == |frags|
            && (forall i :: i in q.parts ==> 0 <= i < q.total && q.parts[i] == frags[i].data)
            && q.parts.Keys == Held(ps, g.id) + {g.idx}
  {
  }

  /** A collector that has counted all its fragments holds the whole encoding; otherwise it stays good. */
  lemma OfferOk(cfg: Config, posted: Store, ps: Partials, g: Frag)
    requires g.id in posted && posted[g.id].id == g.id && IsFragOf(cfg, posted[g.id], g)
    requires g.id in ps ==> PartialOk(cfg, posted, g.id, ps[g.id])
    ensures var q := Offer(ps, g);
            if |q.parts| == q.total
            then JoinFrom(q.parts, 0, q.total) == cfg.codec.encode(posted[g.id]) != []
            else PartialOk(cfg, posted, g.id, q)
  {
    OfferHolds(cfg, posted, ps, g);
    var q := Offer(ps, g);
    CompleteIffNoneMissing(q);
    if |q.parts| == q.total {
      WholeJoins(cfg, posted[g.id], q.parts);
    }
  }

  /** One good fragment keeps the collectors good, and completes exactly to its message. */
  lemma AddFragmentOk(cfg: Config, posted: Store, ps: Partials, g: Frag)
    requires g.id in posted && posted[g.id].id == g.id && IsFragOf(cfg, posted[g.id], g)
    requires RoundTrips(cfg.codec, posted[g.id])
    requires forall id {:trigger PartialOk(cfg, posted, id, ps[id])} :: id in ps ==> PartialOk(cfg, posted, id, ps[id])
    ensures var added := AddFragment(ps, g, cfg.codec);
            var q := Offer(ps, g);
            && (forall id :: id in added.partials ==> PartialOk(cfg, posted, id, added.partials[id]))
            && added.done == (if |q.parts| == q.total then Some(posted[g.id]) else None)
            && added.partials == (if |q.parts| == q.total then ps - {g.id} else ps[g.id := q])
  {
    OfferOk(cfg, posted, ps, g);
  }

  lemma HandleFragOk(cfg: Config, s: Net, me: Callsign, n: NodeState, g: Frag)
    requires PostedOk(cfg, s.nodes.Keys, s.posted) && NodeOk(cfg, s.posted, me, n)
    requires FrameOk(cfg, s, FragF(g)) && FragParses(g)
    ensures NodeOk(cfg, s.posted, me, HandleFrag(cfg, n, me, g))
    ensures SubStore(n.store, HandleFrag(cfg, n, me, g).store)
    ensures forall f :: f in HandleFrag(cfg, n, me, g).queue - n.queue ==> f in FramesFor(cfg, s.posted[g.id])
  {
    if FragKey(g.id, g.idx) !in n.seen {
      assert PostOk(cfg, s.nodes.Keys, s.posted, g.id);
      AddFragmentOk(cfg, s.posted, n.partials, g);
      var added := AddFragment(n.partials, g, cfg.codec);
      var n1 := n.(seen := n.seen + {FragKey(g.id, g.idx)}, partials := added.partials);
      assert NodeOk(cfg, s.posted, me, n1);
      if added.done.Some? {
        HandleMsgOk(cfg, s, me, n1, added.done.value);
      }
    }
  }

  /** What a clock asks for are posted messages. */
  lemma MissingFrame(cfg: Config, s: Net, me: Callsign, sender: Callsign, vector: Vector, e: Frame)
    requires Inv(cfg, s) && me in s.nodes
    requires e in FramesForAll(cfg, Missing(s.nodes[me].store, sender, vector))
    ensures FrameOk(cfg, s, e)
  {
    var n := s.nodes[me];
    assert NodeOk(cfg, s.posted, me, n);
    var m :| m in Missing(n.store, sender, vector) && e in FramesFor(cfg, m);
    var id :| id in n.store && n.store[id] == m;
    assert PostOk(cfg, s.nodes.Keys, s.posted, id);
    FramesForOk(cfg, s, m, e);
  }

  /** Receiving any frame the air can hold keeps the node good and never loses a row. */
  lemma ReceiveOk(cfg: Config, s: Net, me: Callsign, f: Frame)
    requires Inv(cfg, s) && me in s.nodes && FrameOk(cfg, s, f)
    ensures var n := s.nodes[me];
            var t := Receive(cfg, n, me, f);
            && NodeOk(cfg, s.posted, me, t)
            && SubStore(n.store, t.store)
            && QueueOk(cfg, s, t.queue)
  {
    var n := s.nodes[me];
    var t := Receive(cfg, n, me, f);
    assert NodeOk(cfg, s.posted, me, n);
    assert QueueOk(cfg, s, n.queue);
    match f
    case MsgF(m) =>
      HandleMsgOk(cfg, s, me, n, m);
      forall e | e in t.queue - n.queue
        ensures FrameOk(cfg, s, e)
      {
        FramesForOk(cfg, s, m, e);
      }
    case FragF(g) =>
      if FragParses(g) {
        HandleFragOk(cfg, s, me, n, g);
        forall e | e in t.queue - n.queue
          ensures FrameOk(cfg, s, e)
        {
          FramesForOk(cfg, s, s.posted[g.id], e);
        }
      }
    case SvecF(sender, vector) =>
      forall e | e in t.queue
        ensures FrameOk(cfg, s, e)
      {
        if e !in n.queue {
          MissingFrame(cfg, s, me, sender, vector, e);
        }
      }
  }

  // ---- posting ----

  lemma SeqsAdd(store: Store, m: Msg, origin: Callsign)
    requires m.id !in store
    ensures SeqsOf(store[m.id := m], origin)
         == SeqsOf(store, origin) + (if m.from == origin && m.seqNo.Some? then {m.seqNo.value} else {})
  {
    var t := store[m.id := m];
    forall i | i in SeqsOf(store, origin) + (if m.from == origin && m.seqNo.Some? then {m.seqNo.value} else {})
      ensures i in SeqsOf(t, origin)
    {
      if i in SeqsOf(store, origin) {
        var id :| id in store && store[id].from == origin && store[id].seqNo.Some? && store[id].seqNo.value == i;
        assert id in t && t[id] == store[id];
      } else {
        assert m.id in t && t[m.id] == m;
      }
    }
  }

  /** An origin's own table holds exactly its posts. */
  lemma OwnSeqs(cfg: Config, s: Net, me: Callsign)
    requires Inv(cfg, s) && me in s.nodes
    ensures SeqsOf(s.nodes[me].store, me) == SeqsOf(s.posted, me)
  {
    assert NodeOk(cfg, s.posted, me, s.nodes[me]);
    SeqsMonotone(s.nodes[me].store, s.posted, me);
    forall i | i in SeqsOf(s.posted, me)
      ensures i in SeqsOf(s.nodes[me].store, me)
    {
      var id :| id in s.posted && s.posted[id].from == me && s.posted[id].seqNo.Some? && s.posted[id].seqNo.value == i;
      assert id in s.nodes[me].store;
    }
  }

  /** MAX(seq) + 1 is one past the contiguous prefix, and no stored row has it. */
  lemma NextSeqIsFresh(cfg: Config, s: Net, me: Callsign)
    requires Inv(cfg, s) && me in s.nodes
    ensures NextSeq(s.nodes[me].store, me) == ClockAt(s.posted, me) + 1
    ensures NextSeq(s.nodes[me].store, me) !in SeqsOf(s.posted, me)
  {
    OwnSeqs(cfg, s, me);
    var seqs := SeqsOf(s.posted, me);
    assert Gapless(seqs);
    if seqs != {} {
      var top := MaxOf(seqs);
      assert Prefix(seqs) in seqs;
    }
  }

  lemma GaplessAfterPost(posted: Store, m: Msg, c: Callsign)
    requires Gapless(SeqsOf(posted, c)) && m.id !in posted
    requires m.seqNo == Some(ClockAt(posted, m.from) + 1)
    ensures Gapless(SeqsOf(posted[m.id := m], c))
  {
    SeqsAdd(posted, m, c);
    if c == m.from {
      GaplessExtends(SeqsOf(posted, c), SeqsOf(posted[m.id := m], c));
    }
  }

  lemma PostedOkAfterPost(cfg: Config, peers: set<Callsign>, posted: Store, m: Msg)
    requires PostedOk(cfg, peers, posted) && m.from in peers && m.id !in posted
    requires RoundTrips(cfg.codec, m)
    requires m.seqNo == Some(ClockAt(posted, m.from) + 1) && m.seqNo.value !in SeqsOf(posted, m.from)
    ensures PostedOk(cfg, peers, posted[m.id := m])
  {
    forall c | c in peers
      ensures Gapless(SeqsOf(posted[m.id := m], c))
    {
      GaplessAfterPost(posted, m, c);
    }
    forall id | id in posted
      ensures PostOk(cfg, peers, posted[m.id := m], id)
      ensures posted[id].from == m.from ==> posted[id].seqNo != m.seqNo
    {
      assert PostOk(cfg, peers, posted, id);
      if posted[id].from == m.from {
        assert posted[id].seqNo.value in SeqsOf(posted, m.from);
      }
    }
    var more := posted[m.id := m];
    forall a, b | a in more && b in more
      ensures SlotsDiffer(more, a, b)
    {
      if a in posted && b in posted {
        assert SlotsDiffer(posted, a, b);
      }
    }
  }

  /** SendMessage can fail only because the id is already in the sender's own table. */
  lemma PostFailsIff(cfg: Config, s: Net, me: Callsign, d: Draft)
    requires Inv(cfg, s) && me in s.nodes
    ensures Post(cfg, s.nodes[me], me, d).Err? <==> d.id in s.nodes[me].store
  {
    NextSeqIsFresh(cfg, s, me);
    OwnSeqs(cfg, s, me);
    var n := s.nodes[me];
    var m := Compose(n, me, d);
    forall id | id in n.store && n.store[id].from == me && n.store[id].seqNo.Some?
      ensures n.store[id].seqNo != m.seqNo
    {
      assert n.store[id].seqNo.value in SeqsOf(n.store, me);
    }
  }

  lemma PartialOkGrows(cfg: Config, posted: Store, more: Store, id: MsgId, p: Partial)
    requires PartialOk(cfg, posted, id, p) && SubStore(posted, more)
    ensures PartialOk(cfg, more, id, p)
  {
    assert more[id] == posted[id];
  }

  /** A node stays good when the history grows by messages of other origins. */
  lemma NodeOkGrows(cfg: Config, posted: Store, more: Store, me: Callsign, n: NodeState)
    requires NodeOk(cfg, posted, me, n) && SubStore(posted, more)
    requires forall id :: id in more && more[id].from == me ==> id in n.store
    ensures NodeOk(cfg, more, me, n)
  {
    forall id | id in n.partials
      ensures PartialOk(cfg, more, id, n.partials[id])
    {
      PartialOkGrows(cfg, posted, more, id, n.partials[id]);
    }
  }

  /** A node may add its own new message to its table, together with the history. */
  lemma NodeOkPosts(cfg: Config, posted: Store, me: Callsign, n: NodeState, m: Msg, queue: set<Frame>)
    requires NodeOk(cfg, posted, me, n) && m.id !in posted && m.from == me
    ensures NodeOk(cfg, posted[m.id := m], me,
                   n.(store := n.store[m.id := m], queue := queue, seen := n.seen + {MsgKey(m.id)}))
  {
    forall id | id in n.partials
      ensures PartialOk(cfg, posted[m.id := m], id, n.partials[id])
    {
      PartialOkGrows(cfg, posted, posted[m.id := m], id, n.partials[id]);
    }
  }

  lemma NodesAfterPost(cfg: Config, s: Net, t: Net, m: Msg)
    requires Inv(cfg, s) && m.id !in s.posted && m.from in s.nodes
    requires t.posted == s.posted[m.id := m] && t.nodes.Keys == s.nodes.Keys
    requires forall c :: c in s.nodes && c != m.from ==> t.nodes[c] == s.nodes[c]
    requires var n := s.nodes[m.from];
             t.nodes[m.from] == n.(store := n.store[m.id := m], queue := t.nodes[m.from].queue, seen := n.seen + {MsgKey(m.id)})
    ensures forall c :: c in t.nodes ==> NodeOk(cfg, t.posted, c, t.nodes[c])
  {
    forall c | c in t.nodes
      ensures NodeOk(cfg, t.posted, c, t.nodes[c])
    {
      assert NodeOk(cfg, s.posted, c, s.nodes[c]);
      if c == m.from {
        NodeOkPosts(cfg, s.posted, c, s.nodes[c], m, t.nodes[c].queue);
      } else {
        NodeOkGrows(cfg, s.posted, t.posted, c, s.nodes[c]);
      }
    }
  }

  lemma QueuesAfterPost(cfg: Config, s: Net, t: Net, m: Msg)
    requires Inv(cfg, s) && Grows(s, t) && t.air == s.air
    requires m.id in t.posted && t.posted[m.id] == m
    requires forall c :: c in t.nodes ==> t.nodes[c].queue <= s.nodes[c].queue + FrameSet(cfg, m)
    ensures QueueOk(cfg, t, t.air)
    ensures forall c :: c in t.nodes ==> QueueOk(cfg, t, t.nodes[c].queue)
  {
    forall c, f | c in t.nodes && f in t.nodes[c].queue
      ensures FrameOk(cfg, t, f)
    {
      if f in FrameSet(cfg, m) {
        FramesForOk(cfg, t, m, f);
      } else {
        assert QueueOk(cfg, s, s.nodes[c].queue);
        FrameOkGrows(cfg, s, t, f);
      }
    }
    QueueOkGrows(cfg, s, t, s.air);
  }

  ghost function Posted(cfg: Config, n: NodeState, m: Msg): NodeState {
    n.(store := n.store[m.id := m], queue := n.queue + FrameSet(cfg, m), seen := n.seen + {MsgKey(m.id)})
  }

  ghost function NetAfterPost(cfg: Config, s: Net, m: Msg): Net
    requires m.from in s.nodes
  {
    Net(s.nodes[m.from := Posted(cfg, s.nodes[m.from], m)], s.air, s.posted[m.id := m])
  }

  lemma PostGrows(cfg: Config, s: Net, m: Msg)
    requires m.from in s.nodes && m.id !in s.posted && SubStore(s.nodes[m.from].store, s.posted)
    ensures Grows(s, NetAfterPost(cfg, s, m))
  {
    assert NetAfterPost(cfg, s, m).nodes.Keys == s.nodes.Keys;
  }

  lemma PostedKeepsInv(cfg: Config, s: Net, m: Msg)
    requires Inv(cfg, s) && m.from in s.nodes && m.id !in s.posted && RoundTrips(cfg.codec, m)
    requires m.seqNo == Some(NextSeq(s.nodes[m.from].store, m.from))
    ensures Inv(cfg, NetAfterPost(cfg, s, m)) && Grows(s, NetAfterPost(cfg, s, m))
  {
    var t := NetAfterPost(cfg, s, m);
    assert NodeOk(cfg, s.posted, m.from, s.nodes[m.from]);
    PostGrows(cfg, s, m);
    NextSeqIsFresh(cfg, s, m.from);
    PostedOkAfterPost(cfg, s.nodes.Keys, s.posted, m);
    NodesAfterPost(cfg, s, t, m);
    QueuesAfterPost(cfg, s, t, m);
  }

  lemma PostStep(cfg: Config, s: Net, me: Callsign, d: Draft)
    requires Inv(cfg, s) && me in s.nodes && CanPost(cfg, s, me, d)
    ensures Inv(cfg, Step(cfg, s, PostMsg(me, d)))
    ensures Grows(s, Step(cfg, s, PostMsg(me, d)))
  {
    PostFailsIff(cfg, s, me, d);
    var n := s.nodes[me];
    if d.id in n.store {
      assert Step(cfg, s, PostMsg(me, d)) == s;
    } else {
      var m := Compose(n, me, d);
      PostedKeepsInv(cfg, s, m);
      assert Step(cfg, s, PostMsg(me, d)) == NetAfterPost(cfg, s, m);
    }
  }

  // ---- runs ----

  lemma StepKeepsInv(cfg: Config, s: Net, a: Action)
    requires Inv(cfg, s) && Enabled(cfg, s, a)
    ensures Inv(cfg, Step(cfg, s, a))
    ensures Grows(s, Step(cfg, s, a))
  {
    match a
    case PostMsg(me, d) => PostStep(cfg, s, me, d);
    case Deliver(me, f) => DeliverStep(cfg, s, me, f);
    case Broadcast(me) => BroadcastStep(cfg, s, me);
    case _ => QuietStep(cfg, s, a);
  }

  lemma DeliverStep(cfg: Config, s: Net, me: Callsign, f: Frame)
    requires Inv(cfg, s) && me in s.nodes && f in s.air
    ensures Inv(cfg, Step(cfg, s, Deliver(me, f)))
    ensures Grows(s, Step(cfg, s, Deliver(me, f)))
  {
    var n := Receive(cfg, s.nodes[me], me, f);
    ReceiveOk(cfg, s, me, f);
    NodeChange(cfg, s, me, n, s.air);
    assert Step(cfg, s, Deliver(me, f)) == Net(s.nodes[me := n], s.air, s.posted);
  }

  /** The broadcast clock is the sender's own. */
  lemma BroadcastStep(cfg: Config, s: Net, me: Callsign)
    requires Inv(cfg, s) && me in s.nodes
    ensures Inv(cfg, Step(cfg, s, Broadcast(me)))
    ensures Grows(s, Step(cfg, s, Broadcast(me)))
  {
    var n := s.nodes[me];
    assert NodeOk(cfg, s.posted, me, n);
    assert QueueOk(cfg, s, n.queue);
    forall c | c in Clock(n.store)
      ensures 0 < Clock(n.store)[c] <= ClockAt(n.store, c)
    {
      ClockEntries(n.store, c);
    }
    var n' := BroadcastSvec(n, me);
    assert QueueOk(cfg, s, n'.queue);
    NodeChange(cfg, s, me, n', s.air);
    assert Step(cfg, s, Broadcast(me)) == Net(s.nodes[me := n'], s.air, s.posted);
  }

  lemma QuietStep(cfg: Config, s: Net, a: Action)
    requires Inv(cfg, s) && Enabled(cfg, s, a)
    requires !a.PostMsg? && !a.Deliver? && !a.Broadcast?
    ensures Inv(cfg, Step(cfg, s, a))
    ensures Grows(s, Step(cfg, s, a))
  {
    var t := Step(cfg, s, a);
    assert NodeOk(cfg, s.posted, a.me, s.nodes[a.me]);
    assert QueueOk(cfg, s, s.nodes[a.me].queue);
    NodeChange(cfg, s, a.me, t.nodes[a.me], t.air);
  }

  lemma GrowsTrans(s: Net, t: Net, u: Net)
    requires Grows(s, t) && Grows(t, u)
    ensures Grows(s, u)
  {
  }

  lemma {:induction false} ExecKeepsInv(cfg: Config, s: Net, acts: seq<Action>)
    requires Inv(cfg, s) && Valid(cfg, s, acts)
    ensures Inv(cfg, Exec(cfg, s, acts))
    ensures Grows(s, Exec(cfg, s, acts))
    decreases |acts|
  {
    if acts != [] {
      StepKeepsInv(cfg, s, acts[0]);
      var t := Step(cfg, s, acts[0]);
      ExecKeepsInv(cfg, t, acts[1..]);
      GrowsTrans(s, t, Exec(cfg, t, acts[1..]));
    }
  }

  lemma InitInv(cfg: Config, s: Net)
    requires IsInit(s)
    ensures Inv(cfg, s)
  {
    forall c | c in s.nodes.Keys
      ensures Gapless(SeqsOf(s.posted, c))
    {
      assert SeqsOf(s.posted, c) == {};
    }
  }

  lemma ReachableInv(cfg: Config, s: Net)
    requires Reachable(cfg, s)
    ensures Inv(cfg, s)
  {
    var s0, acts :| IsInit(s0) && Valid(cfg, s0, acts) && s == Exec(cfg, s0, acts);
    InitInv(cfg, s0);
    ExecKeepsInv(cfg, s0, acts);
  }
}
