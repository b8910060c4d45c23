/** Anti-entropy: stale clocks, when a message is blocked, delivery in any run, and what one exchange brings. */
module Sync {
  import opened Wrappers
  import opened Messages
  import opened VectorClock
  import opened Fragmentation
  import opened Node
  import opened Gossip

  // ---- stale clocks ----

  /** A later clock of the same node: more origins, larger numbers, all of them positive. */
  ghost predicate IsNewer(v: Vector, w: Vector) {
    && (forall o :: o in v ==> o in w && v[o] <= w[o])
    && forall o :: o in w ==> w[o] > 0
  }

  /** No clock of `sender` without this origin brings the row up, although it may lack it. */
  ghost predicate OutOfSight(store: Store, sender: Callsign, v: Vector, id: MsgId)
    requires id in store
  {
    var m := store[id];
    m.from != sender && m.from !in v && m.from !in Clock(store) && m.seqNo.Some? && m.seqNo.value > 0
  }

  lemma InSightIsAnswered(store: Store, sender: Callsign, v: Vector, w: Vector, id: MsgId)
    requires IsNewer(v, w) && id in store && store[id] in Missing(store, sender, w)
    requires forall other :: other in store ==> store[other].id == other
    requires !OutOfSight(store, sender, v, id)
    ensures store[id] in Missing(store, sender, v)
  {
  }

  /** A newer clock of the sender that lists the origin of a row, at number 1 if it did not before. */
  ghost function WithOrigin(v: Vector, origin: Callsign): Vector {
    map o | o in v.Keys + {origin} :: if o in v && v[o] > 1 then v[o] else 1
  }

  lemma OutOfSightIsMissed(store: Store, sender: Callsign, v: Vector, id: MsgId)
    requires forall other :: other in store ==> store[other].id == other
    requires id in store && OutOfSight(store, sender, v, id)
    ensures var w := WithOrigin(v, store[id].from);
            IsNewer(v, w) && store[id] in Missing(store, sender, w) && store[id] !in Missing(store, sender, v)
  {
    var m := store[id];
    ClockEntries(store, m.from);
    assert m.seqNo.value in SeqsOf(store, m.from);
    assert ClockAt(store, m.from) + 1 !in SeqsOf(store, m.from);
  }

  ghost predicate AnswersLess(store: Store, sender: Callsign, v: Vector, w: Vector) {
    Missing(store, sender, w) <= Missing(store, sender, v)
  }

  /**
    * When delay only makes answers longer: whatever clock the sender has meanwhile, it is answered
    * with no more than the old one, exactly when the answering table holds no row of an origin that
    * neither the old clock nor the table's own clock lists. The answering node can check this.
    */
  lemma StaleClockOverSendsIff(store: Store, sender: Callsign, v: Vector)
    requires forall id :: id in store ==> store[id].id == id
    ensures (forall w :: IsNewer(v, w) ==> AnswersLess(store, sender, v, w))
       <==> forall id :: id in store ==> !OutOfSight(store, sender, v, id)
  {
    if id :| id in store && OutOfSight(store, sender, v, id) {
      OutOfSightIsMissed(store, sender, v, id);
      assert !AnswersLess(store, sender, v, WithOrigin(v, store[id].from));
    } else {
      forall w | IsNewer(v, w)
        ensures AnswersLess(store, sender, v, w)
      {
        forall m | m in Missing(store, sender, w)
          ensures m in Missing(store, sender, v)
        {
          var id :| id in store && store[id] == m;
          InSightIsAnswered(store, sender, v, w, id);
        }
      }
    }
  }

  /** The case arises: a row numbered 2 or more held without number 1, and a sender that had nothing of its origin. */
  lemma RowAboveGapIsOutOfSight(m: Msg, sender: Callsign)
    requires m.from != sender && m.seqNo.Some? && m.seqNo.value >= 2
    ensures OutOfSight(map[m.id := m], sender, map[], m.id)
    ensures m !in Missing(map[m.id := m], sender, map[])
    ensures m in Missing(map[m.id := m], sender, map[m.from := 1])
  {
    var store: Store := map[m.id := m];
    forall i | i in SeqsOf(store, m.from)
      ensures i >= 2
    {
    }
    PrefixUnique(SeqsOf(store, m.from), 0);
    ClockEntries(store, m.from);
    var w: Vector := map[m.from := 1];
    assert store[m.id] == m;
    assert m in Missing(store, sender, w);
  }

  // ---- runs in pieces ----

  lemma {:induction false} ExecConcat(cfg: Config, s: Net, a: seq<Action>, b: seq<Action>)
    requires Valid(cfg, s, a) && Valid(cfg, Exec(cfg, s, a), b)
    ensures Valid(cfg, s, a + b)
    ensures Exec(cfg, s, a + b) == Exec(cfg, Exec(cfg, s, a), b)
    decreases |a|
  {
    if a == [] {
      assert a + b == b;
    } else {
      assert (a + b)[0] == a[0] && (a + b)[1..] == a[1..] + b;
      ExecConcat(cfg, Step(cfg, s, a[0]), a[1..], b);
    }
  }

  /** The parts of a valid run are valid runs. */
  lemma {:induction false} ExecSplit(cfg: Config, s: Net, a: seq<Action>, b: seq<Action>)
    requires Valid(cfg, s, a + b)
    ensures Valid(cfg, s, a) && Valid(cfg, Exec(cfg, s, a), b)
    ensures Exec(cfg, s, a + b) == Exec(cfg, Exec(cfg, s, a), b)
    decreases |a|
  {
    if a == [] {
      assert a + b == b;
    } else {
      assert (a + b)[1..] == a[1..] + b;
      ExecSplit(cfg, Step(cfg, s, a[0]), a[1..], b);
    }
  }

  ghost predicate NoPosts(acts: seq<Action>) {
    forall a :: a in acts ==> !a.PostMsg?
  }

  lemma {:induction false} NoPostsKeepHistory(cfg: Config, s: Net, acts: seq<Action>)
    requires Valid(cfg, s, acts) && NoPosts(acts)
    ensures Exec(cfg, s, acts).posted == s.posted
    decreases |acts|
  {
    if acts != [] {
      assert forall a :: a in acts[1..] ==> a in acts;
      NoPostsKeepHistory(cfg, Step(cfg, s, acts[0]), acts[1..]);
    }
  }

  /** No post, no restart and no collector expiry. */
  ghost predicate Calm(acts: seq<Action>) {
    forall a :: a in acts ==> !a.PostMsg? && !a.Reboot? && !a.ExpirePartials?
  }

  /** And no seen key expires. */
  ghost predicate Quiet(acts: seq<Action>) {
    Calm(acts) && forall a :: a in acts ==> !a.ForgetSeen?
  }

  lemma CalmConcat(a: seq<Action>, b: seq<Action>)
    requires Calm(a) && Calm(b)
    ensures Calm(a + b) && NoPosts(a + b)
    ensures Quiet(a) && Quiet(b) ==> Quiet(a + b)
  {
  }

  ghost function Deliveries(me: Callsign, fs: seq<Frame>): seq<Action> {
    if fs == [] then [] else [Deliver(me, fs[0])] + Deliveries(me, fs[1..])
  }

  /** Frames in the air can be delivered one after the other. */
  lemma {:induction false} DeliveriesRun(cfg: Config, s: Net, me: Callsign, fs: seq<Frame>)
    requires me in s.nodes && forall f :: f in fs ==> f in s.air
    ensures var acts := Deliveries(me, fs);
            && Valid(cfg, s, acts) && Quiet(acts)
            && forall f :: f in fs ==> Deliver(me, f) in acts
    decreases |fs|
  {
    if fs != [] {
      var t := Step(cfg, s, Deliver(me, fs[0]));
      assert fs[0] in fs && forall f :: f in fs[1..] ==> f in fs;
      DeliveriesRun(cfg, t, me, fs[1..]);
      assert forall f :: f in fs ==> f == fs[0] || f in fs[1..];
    }
  }

  // ---- blocked fragments ----

  ghost function Count(cfg: Config, m: Msg): nat {
    |FragmentsOf(m, cfg.threshold, cfg.codec)|
  }

  /**
    * A fragment of m was marked seen but the collector does not have it. The node drops that
    * fragment from now on, so the collector cannot complete.
    */
  ghost predicate HasLostPiece(cfg: Config, n: NodeState, m: Msg) {
    exists i :: 0 <= i < Count(cfg, m) && FragKey(m.id, i) in n.seen && i !in Held(n.partials, m.id)
  }

  /** And the message is not stored: it cannot reach the node. */
  ghost predicate Blocked(cfg: Config, n: NodeState, m: Msg) {
    m.id !in n.store && HasLostPiece(cfg, n, m)
  }

  lemma HandleMsgEffect(cfg: Config, s: Net, me: Callsign, n: NodeState, m: Msg)
    requires PostedOk(cfg, s.nodes.Keys, s.posted) && SubStore(n.store, s.posted)
    requires MsgKey(m.id) in n.seen ==> m.id in n.store
    requires m.id in s.posted && s.posted[m.id] == m
    ensures var t := HandleMsg(cfg, n, me, m);
            && t.store == n.store[m.id := m]
            && t.seen == n.seen + {MsgKey(m.id)}
            && t.partials == n.partials
  {
    assert m.id in n.store ==> n.store[m.id := m] == n.store;
    NoConflict(cfg, s.nodes.Keys, s.posted, n.store, m);
  }

  /** The fragment joined its collector. */
  ghost predicate Joined(n: NodeState, t: NodeState, g: Frag) {
    && t.store == n.store
    && t.seen == n.seen + {FragKey(g.id, g.idx)}
    && Held(t.partials, g.id) == Held(n.partials, g.id) + {g.idx}
    && forall id :: id != g.id ==> Held(t.partials, id) == Held(n.partials, id)
  }

  /** The fragment was the last one, and its message was handled. */
  ghost predicate Finished(n: NodeState, t: NodeState, g: Frag, m: Msg) {
    && t.store == n.store[m.id := m]
    && t.seen == n.seen + {FragKey(g.id, g.idx), MsgKey(g.id)}
    && forall id :: id != g.id ==> Held(t.partials, id) == Held(n.partials, id)
  }

  lemma OfferFills(cfg: Config, posted: Store, n: NodeState, g: Frag)
    requires g.id in posted && posted[g.id].id == g.id && IsFragOf(cfg, posted[g.id], g)
    requires g.id in n.partials ==> PartialOk(cfg, posted, g.id, n.partials[g.id])
    ensures var q := Offer(n.partials, g);
            && q.parts.Keys == Held(n.partials, g.id) + {g.idx}
            && (|q.parts| == q.total <==> q.parts.Keys == Range(Count(cfg, posted[g.id])))
  {
    OfferHolds(cfg, posted, n.partials, g);
    CompleteIffKeysFill(Offer(n.partials, g));
  }

  /** The table, cache and collectors after handling the message of the fragment that completed it. */
  lemma FinishedBy(cfg: Config, s: Net, me: Callsign, n: NodeState, g: Frag, n1: NodeState)
    requires PostedOk(cfg, s.nodes.Keys, s.posted) && NodeOk(cfg, s.posted, me, n)
    requires g.id in s.posted && s.posted[g.id].id == g.id
    requires n1 == n.(seen := n.seen + {FragKey(g.id, g.idx)}, partials := n.partials - {g.id})
    ensures Finished(n, HandleMsg(cfg, n1, me, s.posted[g.id]), g, s.posted[g.id])
  {
    HandleMsgEffect(cfg, s, me, n1, s.posted[g.id]);
  }

  lemma FragCompletes(cfg: Config, s: Net, me: Callsign, n: NodeState, g: Frag)
    requires PostedOk(cfg, s.nodes.Keys, s.posted) && NodeOk(cfg, s.posted, me, n)
    requires FrameOk(cfg, s, FragF(g)) && FragParses(g) && FragKey(g.id, g.idx) !in n.seen
    requires var q := Offer(n.partials, g); |q.parts| == q.total
    ensures Finished(n, HandleFrag(cfg, n, me, g), g, s.posted[g.id])
  {
    assert PostOk(cfg, s.nodes.Keys, s.posted, g.id);
    AddFragmentOk(cfg, s.posted, n.partials, g);
    var n1 := n.(seen := n.seen + {FragKey(g.id, g.idx)}, partials := n.partials - {g.id});
    FinishedBy(cfg, s, me, n, g, n1);
  }

  lemma JoinedBy(n: NodeState, g: Frag, q: Partial)
    requires q.parts.Keys == Held(n.partials, g.id) + {g.idx}
    ensures Joined(n, n.(seen := n.seen + {FragKey(g.id, g.idx)}, partials := n.partials[g.id := q]), g)
  {
  }

  lemma FragJoins(cfg: Config, s: Net, me: Callsign, n: NodeState, g: Frag)
    requires PostedOk(cfg, s.nodes.Keys, s.posted) && NodeOk(cfg, s.posted, me, n)
    requires FrameOk(cfg, s, FragF(g)) && FragParses(g) && FragKey(g.id, g.idx) !in n.seen
    requires var q := Offer(n.partials, g); |q.parts| != q.total
    ensures Joined(n, HandleFrag(cfg, n, me, g), g)
  {
    assert PostOk(cfg, s.nodes.Keys, s.posted, g.id);
    AddFragmentOk(cfg, s.posted, n.partials, g);
    OfferFills(cfg, s.posted, n, g);
    JoinedBy(n, g, Offer(n.partials, g));
  }

  /** A new good fragment joins its collector, or is the one that completes it. */
  lemma HandleFragEffect(cfg: Config, s: Net, me: Callsign, n: NodeState, g: Frag)
    requires PostedOk(cfg, s.nodes.Keys, s.posted) && NodeOk(cfg, s.posted, me, n)
    requires FrameOk(cfg, s, FragF(g)) && FragParses(g)
    requires FragKey(g.id, g.idx) !in n.seen
    ensures var t := HandleFrag(cfg, n, me, g);
            if Held(n.partials, g.id) + {g.idx} == Range(Count(cfg, s.posted[g.id]))
            then Finished(n, t, g, s.posted[g.id])
            else Joined(n, t, g)
  {
    OfferFills(cfg, s.posted, n, g);
    var q := Offer(n.partials, g);
    if |q.parts| == q.total {
      FragCompletes(cfg, s, me, n, g);
    } else {
      FragJoins(cfg, s, me, n, g);
    }
  }

  lemma JoinedBlocks(cfg: Config, n: NodeState, t: NodeState, g: Frag, m: Msg)
    requires Joined(n, t, g) && FragKey(g.id, g.idx) !in n.seen
    ensures Blocked(cfg, n, m) <==> Blocked(cfg, t, m)
  {
  }

  lemma FinishedBlocks(cfg: Config, n: NodeState, t: NodeState, g: Frag, whole: Msg, m: Msg)
    requires Finished(n, t, g, whole) && FragKey(g.id, g.idx) !in n.seen && whole.id == g.id
    requires m.id == g.id ==> m == whole
    requires Held(n.partials, g.id) + {g.idx} == Range(Count(cfg, whole))
    ensures Blocked(cfg, n, m) <==> Blocked(cfg, t, m)
  {
    if m.id == g.id {
      forall i | 0 <= i < Count(cfg, m) && FragKey(m.id, i) in n.seen
        ensures i in Held(n.partials, m.id)
      {
        assert i in Held(n.partials, g.id) + {g.idx};
      }
    }
  }

  lemma FragEffect(cfg: Config, s: Net, me: Callsign, n: NodeState, g: Frag, m: Msg)
    requires PostedOk(cfg, s.nodes.Keys, s.posted) && NodeOk(cfg, s.posted, me, n)
    requires FrameOk(cfg, s, FragF(g)) && FragParses(g)
    requires m.id in s.posted && s.posted[m.id] == m
    ensures var t := HandleFrag(cfg, n, me, g);
            && n.seen <= t.seen
            && FragKey(g.id, g.idx) in t.seen
            && (Blocked(cfg, n, m) <==> Blocked(cfg, t, m))
  {
    if FragKey(g.id, g.idx) !in n.seen {
      var t := HandleFrag(cfg, n, me, g);
      HandleFragEffect(cfg, s, me, n, g);
      if Held(n.partials, g.id) + {g.idx} == Range(Count(cfg, s.posted[g.id])) {
        FinishedBlocks(cfg, n, t, g, s.posted[g.id], m);
      } else {
        JoinedBlocks(cfg, n, t, g, m);
      }
    }
  }

  /** Receiving a good frame never blocks a message, a MSG frame unblocks its own, and nothing else does. */
  lemma ReceiveEffect(cfg: Config, s: Net, me: Callsign, f: Frame, m: Msg)
    requires Inv(cfg, s) && me in s.nodes && FrameOk(cfg, s, f)
    requires m.id in s.posted && s.posted[m.id] == m
    ensures var n := s.nodes[me];
            var t := Receive(cfg, n, me, f);
            && n.seen <= t.seen
            && (f == MsgF(m) ==> m.id in t.store)
            && (f.FragF? && FragParses(f.frag) ==> FragKey(f.frag.id, f.frag.idx) in t.seen)
            && (f != MsgF(m) ==> (Blocked(cfg, n, m) <==> Blocked(cfg, t, m)))
  {
    var n := s.nodes[me];
    assert NodeOk(cfg, s.posted, me, n);
    match f
    case MsgF(x) =>
      if MsgKey(x.id) !in n.seen {
        HandleMsgEffect(cfg, s, me, n, x);
      }
    case FragF(g) =>
      if FragParses(g) {
        FragEffect(cfg, s, me, n, g, m);
      }
    case SvecF(_, _) =>
  }

  // ---- when a message is blocked ----

  /** The node expires its collector of the message. */
  ghost predicate LosesCollector(a: Action, me: Callsign, id: MsgId) {
    a.me == me && a.ExpirePartials? && id in a.ids
  }

  ghost predicate SomeFragmentSeen(cfg: Config, n: NodeState, m: Msg) {
    exists i :: 0 <= i < Count(cfg, m) && FragKey(m.id, i) in n.seen
  }

  /**
    * The step that blocks an open message is exactly the expiry of its collector while the message
    * is not stored and one of its fragments is still in the seen cache. Every other step leaves it open.
    */
  lemma BlocksIff(cfg: Config, s: Net, a: Action, c: Callsign, m: Msg)
    requires Inv(cfg, s) && Enabled(cfg, s, a) && c in s.nodes
    requires m.id in s.posted && s.posted[m.id] == m
    requires !Blocked(cfg, s.nodes[c], m)
    ensures Blocked(cfg, Step(cfg, s, a).nodes[c], m)
       <==> LosesCollector(a, c, m.id) && m.id !in s.nodes[c].store && SomeFragmentSeen(cfg, s.nodes[c], m)
  {
    var t := Step(cfg, s, a);
    StepKeepsInv(cfg, s, a);
    if LosesCollector(a, c, m.id) {
      assert Held(t.nodes[c].partials, m.id) == {};
      if SomeFragmentSeen(cfg, s.nodes[c], m) {
        var i :| 0 <= i < Count(cfg, m) && FragKey(m.id, i) in s.nodes[c].seen;
        assert FragKey(m.id, i) in t.nodes[c].seen;
      }
    } else if a.me == c && a.Deliver? {
      assert QueueOk(cfg, s, s.air);
      ReceiveEffect(cfg, s, c, a.frame, m);
    }
  }

  /** The case arises: one fragment of several arrives at a node that knew none of them, and its collector expires. */
  lemma ExpiryBlocks(cfg: Config, s: Net, me: Callsign, m: Msg, g: Frag)
    requires Inv(cfg, s) && me in s.nodes && m.id in s.posted && s.posted[m.id] == m && m.id !in s.nodes[me].store
    requires 2 <= Count(cfg, m) <= MAX_FRAGMENTS && FragF(g) in FramesFor(cfg, m) && FragF(g) in s.air
    requires m.id !in s.nodes[me].partials && !SomeFragmentSeen(cfg, s.nodes[me], m)
    ensures !Blocked(cfg, s.nodes[me], m)
    ensures var acts := [Deliver(me, FragF(g)), ExpirePartials(me, {m.id})];
            && Valid(cfg, s, acts) && me in Exec(cfg, s, acts).nodes
            && Blocked(cfg, Exec(cfg, s, acts).nodes[me], m)
  {
    var frags := FragmentsOf(m, cfg.threshold, cfg.codec);
    var i :| 0 <= i < |FramesFor(cfg, m)| && FramesFor(cfg, m)[i] == FragF(g);
    assert g == frags[i] && g.idx == i && g.id == m.id;
    var n := s.nodes[me];
    var deliver, expire := Deliver(me, FragF(g)), ExpirePartials(me, {m.id});
    var t := Step(cfg, s, deliver);
    assert NodeOk(cfg, s.posted, me, n);
    assert PostOk(cfg, s.nodes.Keys, s.posted, m.id);
    FramesForOk(cfg, s, m, FragF(g));
    HandleFragEffect(cfg, s, me, n, g);
    assert {g.idx} != Range(Count(cfg, m)) by {
      assert 0 in Range(Count(cfg, m)) && 1 in Range(Count(cfg, m));
    }
    StepKeepsInv(cfg, s, deliver);
    assert FragKey(m.id, i) in t.nodes[me].seen;
    ReceiveEffect(cfg, s, me, FragF(g), m);
    BlocksIff(cfg, t, expire, me, m);
    TwoSteps(cfg, s, deliver, expire);
  }

  lemma TwoSteps(cfg: Config, s: Net, a: Action, b: Action)
    requires Enabled(cfg, s, a) && Enabled(cfg, Step(cfg, s, a), b)
    ensures Valid(cfg, s, [a, b]) && Exec(cfg, s, [a, b]) == Step(cfg, Step(cfg, s, a), b)
  {
    var t := Step(cfg, s, a);
    var u := Step(cfg, t, b);
    assert [a, b][1..] == [b] && [b][1..] == [];
    assert Valid(cfg, u, []) && Valid(cfg, t, [b]);
    assert Exec(cfg, u, []) == u && Exec(cfg, t, [b]) == u;
  }

  // ---- delivery, in any run ----

  /** In this run the node neither restarts nor expires its collector of the message. */
  ghost predicate KeepsCollector(acts: seq<Action>, me: Callsign, id: MsgId) {
    forall a :: a in acts && a.me == me ==> !a.Reboot? && (a.ExpirePartials? ==> id !in a.ids)
  }

  /** In this run no fragment of the message leaves the node's seen cache. */
  ghost predicate KeepsFragKeys(acts: seq<Action>, me: Callsign, id: MsgId) {
    forall a :: a in acts && a.me == me && a.ForgetSeen? ==> forall i :: FragKey(id, i) !in a.gone
  }

  /** Every frame of the message is delivered to the node somewhere in the run. */
  ghost predicate DeliversAll(cfg: Config, acts: seq<Action>, me: Callsign, m: Msg) {
    forall f :: f in FramesFor(cfg, m) ==> Deliver(me, f) in acts
  }

  /** The node stores the message, or its collector holds this fragment of it. */
  ghost predicate HasPiece(n: NodeState, m: Msg, f: Frame) {
    m.id in n.store || (f.FragF? && f.frag.idx in Held(n.partials, m.id))
  }

  lemma FrameOf(cfg: Config, m: Msg, f: Frame)
    requires f in FramesFor(cfg, m)
    ensures if Count(cfg, m) == 0 then f == MsgF(m)
            else f.FragF? && 0 <= f.frag.idx < Count(cfg, m) && f.frag.id == m.id
                 && f.frag == FragmentsOf(m, cfg.threshold, cfg.codec)[f.frag.idx] && f.frag.total == Count(cfg, m)
  {
    var i :| 0 <= i < |FramesFor(cfg, m)| && FramesFor(cfg, m)[i] == f;
    assert Count(cfg, m) > 0 ==> f == FragF(FragmentsOf(m, cfg.threshold, cfg.codec)[i]);
  }

  /** A piece stays until the message is stored. */
  lemma StepKeepsPiece(cfg: Config, s: Net, a: Action, me: Callsign, m: Msg, f: Frame)
    requires Inv(cfg, s) && Enabled(cfg, s, a) && me in s.nodes
    requires m.id in s.posted && s.posted[m.id] == m
    requires KeepsCollector([a], me, m.id) && HasPiece(s.nodes[me], m, f)
    ensures HasPiece(Step(cfg, s, a).nodes[me], m, f)
  {
    assert a in [a];
    StepKeepsInv(cfg, s, a);
    if a.me == me && a.Deliver? && a.frame.FragF? {
      FragKeepsPiece(cfg, s, me, a.frame.frag, m, f);
    }
  }

  lemma FragKeepsPiece(cfg: Config, s: Net, me: Callsign, g: Frag, m: Msg, f: Frame)
    requires Inv(cfg, s) && me in s.nodes && FragF(g) in s.air
    requires m.id in s.posted && s.posted[m.id] == m && HasPiece(s.nodes[me], m, f)
    ensures HasPiece(Receive(cfg, s.nodes[me], me, FragF(g)), m, f)
  {
    var n := s.nodes[me];
    assert NodeOk(cfg, s.posted, me, n);
    assert QueueOk(cfg, s, s.air);
    assert FrameOk(cfg, s, FragF(g));
    if FragParses(g) && FragKey(g.id, g.idx) !in n.seen {
      HandleFragEffect(cfg, s, me, n, g);
    }
  }

  /** Delivering a frame of an open message that fits gives its piece. */
  lemma DeliveryGivesPiece(cfg: Config, s: Net, me: Callsign, m: Msg, f: Frame)
    requires Inv(cfg, s) && me in s.nodes && f in s.air
    requires m.id in s.posted && s.posted[m.id] == m && Fits(cfg, m) && f in FramesFor(cfg, m)
    requires !Blocked(cfg, s.nodes[me], m)
    ensures HasPiece(Step(cfg, s, Deliver(me, f)).nodes[me], m, f)
  {
    var n := s.nodes[me];
    assert NodeOk(cfg, s.posted, me, n);
    FrameOf(cfg, m, f);
    FramesForOk(cfg, s, m, f);
    assert PostOk(cfg, s.nodes.Keys, s.posted, m.id);
    if f.MsgF? {
      ReceiveEffect(cfg, s, me, f, m);
    } else if FragKey(m.id, f.frag.idx) !in n.seen {
      HandleFragEffect(cfg, s, me, n, f.frag);
    }
  }

  /** A delivered frame has left its piece by the end of the run. */
  lemma {:induction false} PieceArrives(cfg: Config, s: Net, me: Callsign, acts: seq<Action>, m: Msg, f: Frame)
    requires Inv(cfg, s) && Valid(cfg, s, acts) && me in s.nodes
    requires m.id in s.posted && s.posted[m.id] == m && f in FramesFor(cfg, m) && KeepsCollector(acts, me, m.id)
    requires HasPiece(s.nodes[me], m, f)
             || (Fits(cfg, m) && !Blocked(cfg, s.nodes[me], m) && Deliver(me, f) in acts)
    ensures me in Exec(cfg, s, acts).nodes && HasPiece(Exec(cfg, s, acts).nodes[me], m, f)
    decreases |acts|
  {
    if acts != [] {
      var a := acts[0];
      assert a in acts && forall b :: b in acts[1..] ==> b in acts;
      assert forall b :: b in acts ==> b == a || b in acts[1..];
      StepKeepsInv(cfg, s, a);
      if HasPiece(s.nodes[me], m, f) {
        StepKeepsPiece(cfg, s, a, me, m, f);
      } else if a == Deliver(me, f) {
        DeliveryGivesPiece(cfg, s, me, m, f);
      } else {
        BlocksIff(cfg, s, a, me, m);
      }
      PieceArrives(cfg, Step(cfg, s, a), me, acts[1..], m, f);
    }
  }

  /** All pieces together are the message: a collector never holds all of them. */
  lemma AllPiecesAreStored(cfg: Config, posted: Store, me: Callsign, n: NodeState, m: Msg)
    requires NodeOk(cfg, posted, me, n) && m.id in posted && posted[m.id] == m
    requires forall f :: f in FramesFor(cfg, m) ==> HasPiece(n, m, f)
    ensures m.id in n.store
  {
    var frags := FragmentsOf(m, cfg.threshold, cfg.codec);
    if |frags| == 0 {
      assert MsgF(m) in FramesFor(cfg, m);
    } else if m.id !in n.store {
      forall i | 0 <= i < |frags|
        ensures i in Held(n.partials, m.id)
      {
        assert FramesFor(cfg, m)[i] == FragF(frags[i]);
        assert HasPiece(n, m, FramesFor(cfg, m)[i]);
      }
      assert 0 in Held(n.partials, m.id);
      assert PartialOk(cfg, posted, m.id, n.partials[m.id]);
      CompleteIffNoneMissing(n.partials[m.id]);
      assert false;
    }
  }

  /**
    * Delivery of one message, in any run of the network. Whatever the nodes do in between, once every
    * frame of an open message that fits has been delivered, in any order and any number of times, the
    * message is stored; only a restart and the expiry of its own collector are excluded at the receiver.
    */
  lemma MessageArrives(cfg: Config, s: Net, me: Callsign, acts: seq<Action>, m: Msg)
    requires Inv(cfg, s) && Valid(cfg, s, acts) && me in s.nodes
    requires m.id in s.posted && s.posted[m.id] == m && Fits(cfg, m)
    requires DeliversAll(cfg, acts, me, m) && KeepsCollector(acts, me, m.id)
    requires !Blocked(cfg, s.nodes[me], m)
    ensures me in Exec(cfg, s, acts).nodes && m.id in Exec(cfg, s, acts).nodes[me].store
  {
    var t := Exec(cfg, s, acts);
    ExecKeepsInv(cfg, s, acts);
    forall f | f in FramesFor(cfg, m)
      ensures HasPiece(t.nodes[me], m, f)
    {
      PieceArrives(cfg, s, me, acts, m, f);
    }
    assert NodeOk(cfg, t.posted, me, t.nodes[me]);
    AllPiecesAreStored(cfg, t.posted, me, t.nodes[me], m);
  }

  /** The node forgets every fragment of the message that its collector does not hold. */
  ghost predicate ForgetsOutside(cfg: Config, n: NodeState, gone: set<SeenKey>, m: Msg) {
    forall i :: 0 <= i < Count(cfg, m) && FragKey(m.id, i) in n.seen && FragKey(m.id, i) !in gone ==> i in Held(n.partials, m.id)
  }

  /**
    * The step that opens a blocked message is exactly a restart of the node, or an expiry of seen keys
    * that leaves no seen fragment of it outside the collector.
    */
  lemma UnblocksIff(cfg: Config, s: Net, a: Action, me: Callsign, m: Msg)
    requires Inv(cfg, s) && Enabled(cfg, s, a) && me in s.nodes
    requires m.id in s.posted && s.posted[m.id] == m && Blocked(cfg, s.nodes[me], m)
    ensures !Blocked(cfg, Step(cfg, s, a).nodes[me], m)
       <==> a.me == me && (a.Reboot? || (a.ForgetSeen? && ForgetsOutside(cfg, s.nodes[me], a.gone, m)))
  {
    var n, t := s.nodes[me], Step(cfg, s, a).nodes[me];
    if a.me == me && a.Deliver? {
      assert QueueOk(cfg, s, s.air);
      assert FrameOk(cfg, s, a.frame);
      ReceiveEffect(cfg, s, me, a.frame, m);
    } else if a.me == me && a.ForgetSeen? {
      assert forall i :: FragKey(m.id, i) in t.seen <==> FragKey(m.id, i) in n.seen && FragKey(m.id, i) !in a.gone;
      assert t.partials == n.partials && t.store == n.store;
    } else if a.me == me && !a.Reboot? {
      var i :| 0 <= i < Count(cfg, m) && FragKey(m.id, i) in n.seen && i !in Held(n.partials, m.id);
      assert FragKey(m.id, i) in t.seen && i !in Held(t.partials, m.id);
    }
  }

  ghost predicate NoRestart(acts: seq<Action>, me: Callsign) {
    forall a :: a in acts && a.me == me ==> !a.Reboot?
  }

  /** A blocked message stays blocked in any run in which the node does not restart and forgets no fragment of it. */
  lemma {:induction false} RunKeepsBlocked(cfg: Config, s: Net, me: Callsign, acts: seq<Action>, m: Msg)
    requires Inv(cfg, s) && Valid(cfg, s, acts) && me in s.nodes
    requires m.id in s.posted && s.posted[m.id] == m && Blocked(cfg, s.nodes[me], m)
    requires NoRestart(acts, me) && KeepsFragKeys(acts, me, m.id)
    ensures me in Exec(cfg, s, acts).nodes && Blocked(cfg, Exec(cfg, s, acts).nodes[me], m)
    decreases |acts|
  {
    if acts != [] {
      assert acts[0] in acts && forall b :: b in acts[1..] ==> b in acts;
      StepKeepsInv(cfg, s, acts[0]);
      UnblocksIff(cfg, s, acts[0], me, m);
      RunKeepsBlocked(cfg, Step(cfg, s, acts[0]), me, acts[1..], m);
    }
  }

  /**
    * The condition is exact: in any run that delivers all fragments of a message and in which the
    * receiver keeps its collector and its seen fragments, it ends up stored if and only if it was
    * not blocked at the start.
    */
  lemma FragmentsArriveIff(cfg: Config, s: Net, me: Callsign, acts: seq<Action>, m: Msg)
    requires Inv(cfg, s) && Valid(cfg, s, acts) && me in s.nodes
    requires m.id in s.posted && s.posted[m.id] == m && Fits(cfg, m)
    requires DeliversAll(cfg, acts, me, m) && KeepsCollector(acts, me, m.id) && KeepsFragKeys(acts, me, m.id)
    ensures me in Exec(cfg, s, acts).nodes
    ensures m.id in Exec(cfg, s, acts).nodes[me].store <==> !Blocked(cfg, s.nodes[me], m)
  {
    if Blocked(cfg, s.nodes[me], m) {
      RunKeepsBlocked(cfg, s, me, acts, m);
    } else {
      MessageArrives(cfg, s, me, acts, m);
    }
  }

  // ---- one exchange ----

  /** The row is among the first k of its origin. */
  ghost predicate InFirst(store: Store, origin: Callsign, k: nat, id: MsgId)
    requires id in store
  {
    store[id].from == origin && store[id].seqNo.Some? && 1 <= store[id].seqNo.value <= k
  }

  /** All of an origin's messages up to number k of the given table are now at the node. */
  lemma ClockReached(cfg: Config, s: Net, me: Callsign, store: Store, origin: Callsign, k: nat)
    requires Inv(cfg, s) && me in s.nodes && SubStore(store, s.posted) && k <= ClockAt(store, origin)
    requires forall id :: id in store && InFirst(store, origin, k, id) ==> id in s.nodes[me].store
    ensures k <= ClockAt(s.nodes[me].store, origin)
  {
    var mine := s.nodes[me].store;
    assert NodeOk(cfg, s.posted, me, s.nodes[me]);
    forall i | 1 <= i <= k
      ensures i in SeqsOf(mine, origin)
    {
      assert i in SeqsOf(store, origin);
      var id :| id in store && store[id].from == origin && store[id].seqNo.Some? && store[id].seqNo.value == i;
      assert id in mine && mine[id] == store[id];
    }
    PrefixReaches(SeqsOf(mine, origin), k);
  }

  /** Two tables with the same (from_node, seq) have the same row there. */
  lemma SameSlot(cfg: Config, s: Net, a: Store, b: Store, id: MsgId)
    requires PostedOk(cfg, s.nodes.Keys, s.posted) && SubStore(a, s.posted) && SubStore(b, s.posted)
    requires id in a && a[id].seqNo.Some? && a[id].seqNo.value in SeqsOf(b, a[id].from)
    ensures id in b && b[id] == a[id]
  {
    var other :| other in b && b[other].from == a[id].from && b[other].seqNo.Some? && b[other].seqNo.value == a[id].seqNo.value;
    assert SlotsDiffer(s.posted, id, other);
  }

  /** What the advertised clock covers, the advertiser holds: clocks are prefixes, however old. */
  lemma CoveredRowIsHeld(cfg: Config, s: Net, far: Callsign, me: Callsign, vector: Vector, id: MsgId)
    requires Inv(cfg, s) && far in s.nodes && me in s.nodes && SvecF(me, vector) in s.air
    requires var store := s.nodes[far].store;
             id in store && store[id].from in vector && store[id].seqNo.Some?
             && 1 <= store[id].seqNo.value <= vector[store[id].from]
    ensures id in s.nodes[me].store
  {
    var m := s.nodes[far].store[id];
    assert NodeOk(cfg, s.posted, far, s.nodes[far]);
    assert NodeOk(cfg, s.posted, me, s.nodes[me]);
    assert QueueOk(cfg, s, s.air);
    assert FrameOk(cfg, s, SvecF(me, vector));
    assert m.seqNo.value in SeqsOf(s.nodes[me].store, m.from);
    SameSlot(cfg, s, s.nodes[far].store, s.nodes[me].store, id);
  }

  /** The receiver has the message already, or the run delivers it: it fits, is open, and its collector is kept. */
  ghost predicate Reaches(cfg: Config, s: Net, acts: seq<Action>, me: Callsign, m: Msg)
    requires me in s.nodes
  {
    || m.id in s.nodes[me].store
    || (Fits(cfg, m) && !Blocked(cfg, s.nodes[me], m) && DeliversAll(cfg, acts, me, m) && KeepsCollector(acts, me, m.id))
  }

  /** The answer to the clock, as far as the first k messages of one origin are concerned, reaches the asker. */
  ghost predicate AnswerReaches(cfg: Config, store: Store, vector: Vector, s: Net, acts: seq<Action>, me: Callsign,
                                origin: Callsign, k: nat)
    requires me in s.nodes
  {
    forall id :: id in store && InFirst(store, origin, k, id) && store[id] in Missing(store, me, vector) ==>
      Reaches(cfg, s, acts, me, store[id])
  }

  lemma RowArrives(cfg: Config, s: Net, far: Callsign, me: Callsign, vector: Vector, t: Net, acts: seq<Action>, id: MsgId)
    requires Inv(cfg, s) && far in s.nodes && me in s.nodes && SvecF(me, vector) in s.air
    requires Inv(cfg, t) && Grows(s, t) && Valid(cfg, t, acts)
    requires var store := s.nodes[far].store;
             id in store && InFirst(store, store[id].from, ClockAt(store, store[id].from), id)
             && (store[id] in Missing(store, me, vector) ==> Reaches(cfg, t, acts, me, store[id]))
    ensures me in Exec(cfg, t, acts).nodes && id in Exec(cfg, t, acts).nodes[me].store
  {
    var store := s.nodes[far].store;
    var m := store[id];
    ExecKeepsInv(cfg, t, acts);
    assert NodeOk(cfg, s.posted, far, s.nodes[far]);
    assert NodeOk(cfg, s.posted, me, s.nodes[me]);
    assert PostOk(cfg, s.nodes.Keys, s.posted, id);
    ClockEntries(store, m.from);
    if m.from == me {
      assert id in s.nodes[me].store;
    } else if m.from in vector && m.seqNo.value <= vector[m.from] {
      CoveredRowIsHeld(cfg, s, far, me, vector, id);
    } else {
      assert m in Missing(store, me, vector);
      if id !in t.nodes[me].store {
        MessageArrives(cfg, t, me, acts, m);
      }
    }
  }

  /**
    * One round suffices. `far` answers a clock of `me`, however stale, in state s. In any later run,
    * whatever else happens in it, that gets the answer's messages of an origin up to number k to `me`,
    * the clock of `me` for that origin ends at k or more, and never below its earlier value.
    */
  lemma SyncRound(cfg: Config, s: Net, far: Callsign, me: Callsign, vector: Vector, t: Net, acts: seq<Action>,
                  origin: Callsign, k: nat)
    requires Inv(cfg, s) && far in s.nodes && me in s.nodes && SvecF(me, vector) in s.air
    requires Inv(cfg, t) && Grows(s, t) && Valid(cfg, t, acts)
    requires k <= ClockAt(s.nodes[far].store, origin)
    requires AnswerReaches(cfg, s.nodes[far].store, vector, t, acts, me, origin, k)
    ensures me in Exec(cfg, t, acts).nodes
    ensures var clock := ClockAt(Exec(cfg, t, acts).nodes[me].store, origin);
            k <= clock && ClockAt(s.nodes[me].store, origin) <= clock
  {
    var store := s.nodes[far].store;
    var u := Exec(cfg, t, acts);
    assert NodeOk(cfg, s.posted, far, s.nodes[far]);
    ExecKeepsInv(cfg, t, acts);
    GrowsTrans(s, t, u);
    forall id | id in store && InFirst(store, origin, k, id)
      ensures id in u.nodes[me].store
    {
      RowArrives(cfg, s, far, me, vector, t, acts, id);
    }
    ClockReached(cfg, u, me, store, origin, k);
    ClockMonotone(s.nodes[me].store, u.nodes[me].store, origin);
  }

  // ---- runs without expiry ----

  /** No posted message is blocked at any node. */
  ghost predicate NoneBlocked(cfg: Config, s: Net) {
    forall c, id :: c in s.nodes && id in s.posted ==> !Blocked(cfg, s.nodes[c], s.posted[id])
  }

  ghost predicate NoExpiry(acts: seq<Action>) {
    forall a :: a in acts ==> !a.ExpirePartials?
  }

  lemma StepKeepsUnblocked(cfg: Config, s: Net, a: Action)
    requires Inv(cfg, s) && Enabled(cfg, s, a) && NoneBlocked(cfg, s) && !a.ExpirePartials?
    ensures NoneBlocked(cfg, Step(cfg, s, a))
  {
    var t := Step(cfg, s, a);
    forall c, id | c in t.nodes && id in t.posted
      ensures !Blocked(cfg, t.nodes[c], t.posted[id])
    {
      assert NodeOk(cfg, s.posted, c, s.nodes[c]);
      StepKeepsInv(cfg, s, a);
      if id in s.posted {
        assert PostOk(cfg, s.nodes.Keys, s.posted, id);
        BlocksIff(cfg, s, a, c, s.posted[id]);
      } else {
        assert forall i :: FragKey(id, i) !in s.nodes[c].seen;
      }
    }
  }

  /** In a run without collector expiry no message is ever blocked. */
  lemma {:induction false} RunKeepsUnblocked(cfg: Config, s: Net, acts: seq<Action>)
    requires Inv(cfg, s) && Valid(cfg, s, acts) && NoneBlocked(cfg, s) && NoExpiry(acts)
    ensures NoneBlocked(cfg, Exec(cfg, s, acts))
    decreases |acts|
  {
    if acts != [] {
      StepKeepsInv(cfg, s, acts[0]);
      StepKeepsUnblocked(cfg, s, acts[0]);
      assert forall a :: a in acts[1..] ==> a in acts;
      RunKeepsUnblocked(cfg, Step(cfg, s, acts[0]), acts[1..]);
    }
  }
}
