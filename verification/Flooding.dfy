/** How often a message is accepted and rebroadcast. */
module Flooding {
  import opened Wrappers
  import opened Messages
  import opened Fragmentation
  import opened Node
  import opened Gossip
  import opened Sync

  /** The node after accepting (or not) a message: what it queued and what it has seen. */
  ghost predicate Reacted(cfg: Config, n: NodeState, t: NodeState, me: Callsign, a: Option<Msg>) {
    && t.queue == n.queue + (if a.Some? && a.value.from != me then FrameSet(cfg, a.value) else {})
    && (forall id :: MsgKey(id) in t.seen <==> MsgKey(id) in n.seen || (a.Some? && a.value.id == id))
  }

  lemma HandleMsgReacts(cfg: Config, n: NodeState, me: Callsign, m: Msg)
    ensures Reacted(cfg, n, HandleMsg(cfg, n, me, m), me, if MsgKey(m.id) in n.seen then None else Some(m))
  {
  }

  /** Receiving a MSG or FRAG frame queues exactly the frames of an accepted message of another node. */
  lemma ReceiveQueues(cfg: Config, n: NodeState, me: Callsign, f: Frame)
    requires !f.SvecF?
    ensures Reacted(cfg, n, Receive(cfg, n, me, f), me, Accepts(cfg, n, f))
  {
    match f
    case MsgF(m) => HandleMsgReacts(cfg, n, me, m);
    case FragF(g) =>
      if FragParses(g) && FragKey(g.id, g.idx) !in n.seen {
        var added := AddFragment(n.partials, g, cfg.codec);
        if added.done.Some? {
          HandleMsgReacts(cfg, n.(seen := n.seen + {FragKey(g.id, g.idx)}, partials := added.partials), me, added.done.value);
        }
      }
  }

  ghost predicate AcceptsId(cfg: Config, s: Net, a: Action, c: Callsign, id: MsgId)
    requires c in s.nodes
  {
    a.Deliver? && a.me == c && Accepts(cfg, s.nodes[c], a.frame).Some? && Accepts(cfg, s.nodes[c], a.frame).value.id == id
  }

  ghost predicate RebroadcastsId(cfg: Config, s: Net, a: Action, c: Callsign, id: MsgId)
    requires c in s.nodes
  {
    AcceptsId(cfg, s, a, c, id) && Accepts(cfg, s.nodes[c], a.frame).value.from != c
  }

  /** How many deliveries of the run are accepted by c as new messages with this id. */
  ghost function Acceptances(cfg: Config, s: Net, acts: seq<Action>, c: Callsign, id: MsgId): nat
    requires Valid(cfg, s, acts) && c in s.nodes
    decreases |acts|
  {
    if acts == [] then 0
    else (if AcceptsId(cfg, s, acts[0], c, id) then 1 else 0) + Acceptances(cfg, Step(cfg, s, acts[0]), acts[1..], c, id)
  }

  /** How many of them c also queues for rebroadcast. */
  ghost function Rebroadcasts(cfg: Config, s: Net, acts: seq<Action>, c: Callsign, id: MsgId): nat
    requires Valid(cfg, s, acts) && c in s.nodes
    decreases |acts|
  {
    if acts == [] then 0
    else (if RebroadcastsId(cfg, s, acts[0], c, id) then 1 else 0) + Rebroadcasts(cfg, Step(cfg, s, acts[0]), acts[1..], c, id)
  }

  /** One epoch of the seen cache: c neither reboots nor lets this id expire. */
  ghost predicate KeepsSeen(acts: seq<Action>, c: Callsign, id: MsgId) {
    forall a :: a in acts && a.me == c ==> !a.Reboot? && (a.ForgetSeen? ==> MsgKey(id) !in a.gone)
  }

  lemma StepSeen(cfg: Config, s: Net, a: Action, c: Callsign, id: MsgId)
    requires Enabled(cfg, s, a) && c in s.nodes && KeepsSeen([a], c, id)
    ensures MsgKey(id) in s.nodes[c].seen ==> MsgKey(id) in Step(cfg, s, a).nodes[c].seen && !AcceptsId(cfg, s, a, c, id)
    ensures AcceptsId(cfg, s, a, c, id) ==> MsgKey(id) in Step(cfg, s, a).nodes[c].seen
  {
    assert a in [a];
    if a.Deliver? && !a.frame.SvecF? && a.me == c {
      ReceiveQueues(cfg, s.nodes[c], c, a.frame);
    }
  }

  /** A step at which c forgets the id: a restart, or the expiry of its seen key. */
  ghost predicate Forgets(a: Action, c: Callsign, id: MsgId) {
    a.me == c && (a.Reboot? || (a.ForgetSeen? && MsgKey(id) in a.gone))
  }

  ghost function Forgettings(acts: seq<Action>, c: Callsign, id: MsgId): nat {
    if acts == [] then 0 else (if Forgets(acts[0], c, id) then 1 else 0) + Forgettings(acts[1..], c, id)
  }

  lemma {:induction false} KeptIsNotForgotten(acts: seq<Action>, c: Callsign, id: MsgId)
    requires KeepsSeen(acts, c, id)
    ensures Forgettings(acts, c, id) == 0
  {
    if acts != [] {
      assert acts[0] in acts && forall a :: a in acts[1..] ==> a in acts;
      KeptIsNotForgotten(acts[1..], c, id);
    }
  }

  /**
    * In every run a node accepts an id at most once more than it forgets it, and not that once more if
    * it had seen the id at the start.
    */
  lemma {:induction false} AcceptancesAreBounded(cfg: Config, s: Net, acts: seq<Action>, c: Callsign, id: MsgId)
    requires Valid(cfg, s, acts) && c in s.nodes
    ensures Acceptances(cfg, s, acts, c, id) <= Forgettings(acts, c, id) + if MsgKey(id) in s.nodes[c].seen then 0 else 1
    ensures Rebroadcasts(cfg, s, acts, c, id) <= Acceptances(cfg, s, acts, c, id)
    decreases |acts|
  {
    if acts != [] {
      var a := acts[0];
      if !Forgets(a, c, id) {
        assert KeepsSeen([a], c, id);
        StepSeen(cfg, s, a, c, id);
      }
      AcceptancesAreBounded(cfg, Step(cfg, s, a), acts[1..], c, id);
    }
  }

  /** Within one epoch a node accepts an id at most once, and never when it has seen it already. */
  lemma AcceptedOncePerEpoch(cfg: Config, s: Net, acts: seq<Action>, c: Callsign, id: MsgId)
    requires Valid(cfg, s, acts) && c in s.nodes && KeepsSeen(acts, c, id)
    ensures Acceptances(cfg, s, acts, c, id) <= if MsgKey(id) in s.nodes[c].seen then 0 else 1
    ensures Rebroadcasts(cfg, s, acts, c, id) <= Acceptances(cfg, s, acts, c, id)
  {
    AcceptancesAreBounded(cfg, s, acts, c, id);
    KeptIsNotForgotten(acts, c, id);
  }

  /** The origin of a message never rebroadcasts it, in any epoch. */
  lemma {:induction false} OriginNeverRebroadcasts(cfg: Config, s: Net, acts: seq<Action>, id: MsgId)
    requires Inv(cfg, s) && Valid(cfg, s, acts) && id in s.posted
    ensures s.posted[id].from in s.nodes && Rebroadcasts(cfg, s, acts, s.posted[id].from, id) == 0
    decreases |acts|
  {
    assert PostOk(cfg, s.nodes.Keys, s.posted, id);
    if acts != [] {
      var a := acts[0];
      StepKeepsInv(cfg, s, a);
      OriginNeverRebroadcasts(cfg, Step(cfg, s, a), acts[1..], id);
      if a.Deliver? {
        AcceptedIsPosted(cfg, s, a.me, a.frame);
      }
    }
  }

  /** Only posted messages are ever accepted. */
  lemma AcceptedIsPosted(cfg: Config, s: Net, c: Callsign, f: Frame)
    requires Inv(cfg, s) && c in s.nodes && f in s.air
    ensures var a := Accepts(cfg, s.nodes[c], f);
            a.Some? ==> a.value.id in s.posted && s.posted[a.value.id] == a.value
  {
    assert QueueOk(cfg, s, s.air);
    assert FrameOk(cfg, s, f);
    assert NodeOk(cfg, s.posted, c, s.nodes[c]);
    if f.FragF? && FragParses(f.frag) {
      assert PostOk(cfg, s.nodes.Keys, s.posted, f.frag.id);
      AddFragmentOk(cfg, s.posted, s.nodes[c].partials, f.frag);
    }
  }

  /** The rebroadcasts of one id over all listed nodes. */
  ghost function TotalRebroadcasts(cfg: Config, s: Net, acts: seq<Action>, cs: seq<Callsign>, id: MsgId): nat
    requires Valid(cfg, s, acts) && forall c :: c in cs ==> c in s.nodes
  {
    if cs == [] then 0
    else
      assert cs[0] in cs;
      assert forall c :: c in cs[1..] ==> c in cs;
      Rebroadcasts(cfg, s, acts, cs[0], id) + TotalRebroadcasts(cfg, s, acts, cs[1..], id)
  }

  /**
    * Flooding is bounded: while no node forgets the id, a posted message is queued for rebroadcast
    * at most once by every node other than its origin, however often its frames are delivered.
    */
  lemma {:induction false} FloodIsBounded(cfg: Config, s: Net, acts: seq<Action>, cs: seq<Callsign>, id: MsgId)
    requires Inv(cfg, s) && Valid(cfg, s, acts) && id in s.posted
    requires forall c :: c in cs ==> c in s.nodes && KeepsSeen(acts, c, id)
    ensures TotalRebroadcasts(cfg, s, acts, cs, id) <= |cs| - (if s.posted[id].from in cs then 1 else 0)
  {
    if cs != [] {
      assert cs[0] in cs;
      assert forall c :: c in cs[1..] ==> c in cs;
      assert forall c :: c in cs ==> c == cs[0] || c in cs[1..];
      AcceptedOncePerEpoch(cfg, s, acts, cs[0], id);
      OriginNeverRebroadcasts(cfg, s, acts, id);
      FloodIsBounded(cfg, s, acts, cs[1..], id);
    }
  }

  /**
    * When a stored message is accepted once more: exactly when its id is absent from the seen cache,
    * stored or not. The table does not change. This is where the once-only rule of section 13.1 of the
    * protocol document fails.
    */
  lemma AcceptedAgainIff(cfg: Config, s: Net, c: Callsign, m: Msg)
    requires Inv(cfg, s) && c in s.nodes && MsgF(m) in s.air && m.id in s.nodes[c].store
    ensures AcceptsId(cfg, s, Deliver(c, MsgF(m)), c, m.id) <==> MsgKey(m.id) !in s.nodes[c].seen
    ensures var u := Step(cfg, s, Deliver(c, MsgF(m)));
            && u.nodes[c].store == s.nodes[c].store
            && u.nodes[c].queue == s.nodes[c].queue
                 + (if MsgKey(m.id) !in s.nodes[c].seen && m.from != c then FrameSet(cfg, m) else {})
  {
    HandleMsgReacts(cfg, s.nodes[c], c, m);
  }

  /** It happens: the id expires and the frame is delivered again. */
  lemma AcceptedAgainAfterExpiry(cfg: Config, s: Net, c: Callsign, m: Msg)
    requires Inv(cfg, s) && c in s.nodes && MsgF(m) in s.air && m.from != c && m.id in s.nodes[c].store
    ensures var t := Step(cfg, s, ForgetSeen(c, {MsgKey(m.id)}));
            var u := Step(cfg, t, Deliver(c, MsgF(m)));
            && RebroadcastsId(cfg, t, Deliver(c, MsgF(m)), c, m.id)
            && MsgF(m) in u.nodes[c].queue
            && u.nodes[c].store == s.nodes[c].store
  {
    assert QueueOk(cfg, s, s.air);
    assert FrameOk(cfg, s, MsgF(m));
    assert MsgF(m) in FramesFor(cfg, m);
    var forget := ForgetSeen(c, {MsgKey(m.id)});
    StepKeepsInv(cfg, s, forget);
    AcceptedAgainIff(cfg, Step(cfg, s, forget), c, m);
  }

  // ---- the same for messages that travel as fragments ----

  /** What a fragment in the air yields, if it is taken: the message it was cut from. */
  lemma FragmentAccepts(cfg: Config, s: Net, c: Callsign, g: Frag)
    requires Inv(cfg, s) && c in s.nodes && FragF(g) in s.air && FragParses(g)
    ensures g.id in s.posted && s.posted[g.id].id == g.id && g.total == Count(cfg, s.posted[g.id])
    ensures var full := Held(s.nodes[c].partials, g.id) + {g.idx} == Range(g.total);
            var unseen := FragKey(g.id, g.idx) !in s.nodes[c].seen && MsgKey(g.id) !in s.nodes[c].seen;
            AcceptsFrag(cfg, s.nodes[c], g) == if unseen && full then Some(s.posted[g.id]) else None
  {
    var n := s.nodes[c];
    assert QueueOk(cfg, s, s.air);
    assert FrameOk(cfg, s, FragF(g));
    assert NodeOk(cfg, s.posted, c, n);
    assert PostOk(cfg, s.nodes.Keys, s.posted, g.id);
    AddFragmentOk(cfg, s.posted, n.partials, g);
    OfferFills(cfg, s.posted, n, g);
  }

  /**
    * The fragment at which a message is accepted, stored already or not: exactly one whose own key and
    * whose message's key are absent from the seen cache, and which fills the collector.
    */
  lemma AcceptedByFragmentIff(cfg: Config, s: Net, c: Callsign, g: Frag, id: MsgId)
    requires Inv(cfg, s) && c in s.nodes && FragF(g) in s.air && FragParses(g)
    ensures AcceptsId(cfg, s, Deliver(c, FragF(g)), c, id) <==>
              && g.id == id && FragKey(g.id, g.idx) !in s.nodes[c].seen && MsgKey(g.id) !in s.nodes[c].seen
              && Held(s.nodes[c].partials, g.id) + {g.idx} == Range(g.total)
  {
    FragmentAccepts(cfg, s, c, g);
  }

  /** A fragment of a stored message never changes the table, accepted or not. */
  lemma FragmentOfStoredKeepsTable(cfg: Config, s: Net, c: Callsign, g: Frag)
    requires Inv(cfg, s) && c in s.nodes && FragF(g) in s.air && g.id in s.nodes[c].store
    ensures Step(cfg, s, Deliver(c, FragF(g))).nodes[c].store == s.nodes[c].store
  {
    var n := s.nodes[c];
    assert QueueOk(cfg, s, s.air);
    assert FrameOk(cfg, s, FragF(g));
    assert NodeOk(cfg, s.posted, c, n);
    if FragParses(g) && FragKey(g.id, g.idx) !in n.seen {
      HandleFragEffect(cfg, s, c, n, g);
      assert n.store[g.id := s.posted[g.id]] == n.store;
    }
  }

  /** The message is unseen, and every seen fragment of it is in the collector: it can be accepted once more. */
  ghost predicate IsOpenAgain(cfg: Config, n: NodeState, m: Msg) {
    MsgKey(m.id) !in n.seen && !HasLostPiece(cfg, n, m)
  }

  /** A step that does not accept the message keeps it open and keeps its pieces, and a delivered piece joins them. */
  lemma OpenUntilAccepted(cfg: Config, s: Net, a: Action, c: Callsign, m: Msg)
    requires Inv(cfg, s) && Enabled(cfg, s, a) && c in s.nodes
    requires m.id in s.posted && s.posted[m.id] == m && 0 < Count(cfg, m) <= MAX_FRAGMENTS
    requires IsOpenAgain(cfg, s.nodes[c], m) && KeepsCollector([a], c, m.id) && !AcceptsId(cfg, s, a, c, m.id)
    ensures var n, t := s.nodes[c], Step(cfg, s, a).nodes[c];
            && KeepsOpen(cfg, n, t, m)
            && forall f :: f in FramesFor(cfg, m) && a == Deliver(c, f) ==> f.FragF? && f.frag.idx in Held(t.partials, m.id)
  {
    assert a in [a];
    if a.me == c && a.Deliver? {
      DeliveryUntilAccepted(cfg, s, a.frame, c, m);
    } else if a.me == c && a.PostMsg? {
      assert NodeOk(cfg, s.posted, c, s.nodes[c]);
    }
  }

  /** The state t keeps the message open and its pieces, compared with n. */
  ghost predicate KeepsOpen(cfg: Config, n: NodeState, t: NodeState, m: Msg) {
    IsOpenAgain(cfg, t, m) && Held(n.partials, m.id) <= Held(t.partials, m.id)
  }

  lemma JoinedKeepsOpen(cfg: Config, n: NodeState, t: NodeState, g: Frag, m: Msg)
    requires Joined(n, t, g) && IsOpenAgain(cfg, n, m)
    ensures KeepsOpen(cfg, n, t, m)
  {
  }

  lemma FinishedKeepsOpen(cfg: Config, n: NodeState, t: NodeState, g: Frag, whole: Msg, m: Msg)
    requires Finished(n, t, g, whole) && IsOpenAgain(cfg, n, m) && g.id != m.id
    ensures KeepsOpen(cfg, n, t, m)
  {
  }

  lemma FragUntilAccepted(cfg: Config, s: Net, g: Frag, c: Callsign, m: Msg)
    requires Inv(cfg, s) && c in s.nodes && FragF(g) in s.air && FragParses(g)
    requires m.id in s.posted && s.posted[m.id] == m && IsOpenAgain(cfg, s.nodes[c], m)
    requires FragKey(g.id, g.idx) !in s.nodes[c].seen && !AcceptsId(cfg, s, Deliver(c, FragF(g)), c, m.id)
    ensures KeepsOpen(cfg, s.nodes[c], HandleFrag(cfg, s.nodes[c], c, g), m)
    ensures g.id == m.id ==> g.idx in Held(HandleFrag(cfg, s.nodes[c], c, g).partials, m.id)
  {
    var n := s.nodes[c];
    var t := HandleFrag(cfg, n, c, g);
    assert QueueOk(cfg, s, s.air);
    assert FrameOk(cfg, s, FragF(g));
    assert NodeOk(cfg, s.posted, c, n);
    AcceptedByFragmentIff(cfg, s, c, g, m.id);
    HandleFragEffect(cfg, s, c, n, g);
    if Held(n.partials, g.id) + {g.idx} == Range(Count(cfg, s.posted[g.id])) {
      FinishedKeepsOpen(cfg, n, t, g, s.posted[g.id], m);
    } else {
      JoinedKeepsOpen(cfg, n, t, g, m);
    }
  }

  lemma DeliveryUntilAccepted(cfg: Config, s: Net, f: Frame, c: Callsign, m: Msg)
    requires Inv(cfg, s) && c in s.nodes && f in s.air
    requires m.id in s.posted && s.posted[m.id] == m && 0 < Count(cfg, m) <= MAX_FRAGMENTS
    requires IsOpenAgain(cfg, s.nodes[c], m) && !AcceptsId(cfg, s, Deliver(c, f), c, m.id)
    ensures var t := Receive(cfg, s.nodes[c], c, f);
            && KeepsOpen(cfg, s.nodes[c], t, m)
            && (f in FramesFor(cfg, m) ==> f.FragF? && f.frag.idx in Held(t.partials, m.id))
  {
    assert QueueOk(cfg, s, s.air);
    assert FrameOk(cfg, s, f);
    if f in FramesFor(cfg, m) {
      FrameOf(cfg, m, f);
    }
    match f
    case MsgF(x) =>
    case FragF(g) =>
      if FragParses(g) && FragKey(g.id, g.idx) !in s.nodes[c].seen {
        FragUntilAccepted(cfg, s, g, c, m);
      }
    case SvecF(_, _) =>
  }

  /**
    * In every run that delivers all fragments of an unseen message, whether the node stores it or not, it is
    * accepted: only a restart and the expiry of its collector are excluded at the node.
    */
  lemma {:induction false} FragmentsAreAccepted(cfg: Config, s: Net, acts: seq<Action>, c: Callsign, m: Msg)
    requires Inv(cfg, s) && Valid(cfg, s, acts) && c in s.nodes
    requires m.id in s.posted && s.posted[m.id] == m && 0 < Count(cfg, m) <= MAX_FRAGMENTS
    requires IsOpenAgain(cfg, s.nodes[c], m) && KeepsCollector(acts, c, m.id)
    requires forall f :: f in FramesFor(cfg, m) ==>
               (f.FragF? && f.frag.idx in Held(s.nodes[c].partials, m.id)) || Deliver(c, f) in acts
    ensures Acceptances(cfg, s, acts, c, m.id) >= 1
    decreases |acts|
  {
    if acts == [] {
      NotAllPieces(cfg, s, c, m);
    } else {
      var a := acts[0];
      assert a in acts && forall b :: b in acts[1..] ==> b in acts;
      assert forall b :: b in acts ==> b == a || b in acts[1..];
      if !AcceptsId(cfg, s, a, c, m.id) {
        OpenUntilAccepted(cfg, s, a, c, m);
        StepKeepsInv(cfg, s, a);
        FragmentsAreAccepted(cfg, Step(cfg, s, a), acts[1..], c, m);
      }
    }
  }

  ghost predicate IsLost(n: NodeState, id: MsgId, i: int) {
    FragKey(id, i) in n.seen && i !in Held(n.partials, id)
  }

  /** With a lost piece no further fragment fills the collector. */
  lemma LostIsNotFull(n: NodeState, g: Frag, i: int, count: nat)
    requires IsLost(n, g.id, i) && 0 <= i < count && FragKey(g.id, g.idx) !in n.seen
    ensures Held(n.partials, g.id) + {g.idx} != Range(count)
  {
    assert i in Range(count);
  }

  lemma JoinedKeepsLost(n: NodeState, t: NodeState, g: Frag, id: MsgId, i: int)
    requires Joined(n, t, g) && IsLost(n, id, i) && FragKey(g.id, g.idx) !in n.seen
    ensures IsLost(t, id, i)
  {
  }

  lemma FragKeepsLost(cfg: Config, s: Net, c: Callsign, g: Frag, m: Msg, i: int)
    requires Inv(cfg, s) && c in s.nodes && FragF(g) in s.air && FragParses(g)
    requires m.id in s.posted && s.posted[m.id] == m && 0 <= i < Count(cfg, m) && IsLost(s.nodes[c], m.id, i)
    ensures IsLost(HandleFrag(cfg, s.nodes[c], c, g), m.id, i)
  {
    var n := s.nodes[c];
    assert QueueOk(cfg, s, s.air);
    assert FrameOk(cfg, s, FragF(g));
    assert NodeOk(cfg, s.posted, c, n);
    if FragKey(g.id, g.idx) !in n.seen {
      HandleFragEffect(cfg, s, c, n, g);
      if g.id == m.id {
        LostIsNotFull(n, g, i, Count(cfg, m));
      }
      if Joined(n, HandleFrag(cfg, n, c, g), g) {
        JoinedKeepsLost(n, HandleFrag(cfg, n, c, g), g, m.id, i);
      }
    }
  }

  lemma LostIsNotAccepted(cfg: Config, s: Net, c: Callsign, g: Frag, m: Msg, i: int)
    requires Inv(cfg, s) && c in s.nodes && FragF(g) in s.air && FragParses(g)
    requires m.id in s.posted && s.posted[m.id] == m && 0 <= i < Count(cfg, m) && IsLost(s.nodes[c], m.id, i)
    ensures !AcceptsId(cfg, s, Deliver(c, FragF(g)), c, m.id)
  {
    AcceptedByFragmentIff(cfg, s, c, g, m.id);
    FragmentAccepts(cfg, s, c, g);
    if g.id == m.id && FragKey(g.id, g.idx) !in s.nodes[c].seen {
      LostIsNotFull(s.nodes[c], g, i, Count(cfg, m));
    }
  }

  /** With a lost piece nothing is accepted, and while the node forgets no fragment the piece stays lost. */
  lemma LostPieceStays(cfg: Config, s: Net, a: Action, c: Callsign, m: Msg)
    requires Inv(cfg, s) && Enabled(cfg, s, a) && c in s.nodes
    requires m.id in s.posted && s.posted[m.id] == m && HasLostPiece(cfg, s.nodes[c], m)
    requires NoRestart([a], c) && KeepsFragKeys([a], c, m.id)
    ensures HasLostPiece(cfg, Step(cfg, s, a).nodes[c], m) && !AcceptsId(cfg, s, a, c, m.id)
  {
    assert a in [a];
    var n := s.nodes[c];
    var i :| 0 <= i < Count(cfg, m) && FragKey(m.id, i) in n.seen && i !in Held(n.partials, m.id);
    assert QueueOk(cfg, s, s.air);
    if a.me == c && a.Deliver? {
      assert FrameOk(cfg, s, a.frame);
      if a.frame.FragF? && FragParses(a.frame.frag) {
        FragKeepsLost(cfg, s, c, a.frame.frag, m, i);
        LostIsNotAccepted(cfg, s, c, a.frame.frag, m, i);
      }
    }
    assert IsLost(Step(cfg, s, a).nodes[c], m.id, i);
  }

  lemma {:induction false} LostPieceIsNeverAccepted(cfg: Config, s: Net, acts: seq<Action>, c: Callsign, m: Msg)
    requires Inv(cfg, s) && Valid(cfg, s, acts) && c in s.nodes
    requires m.id in s.posted && s.posted[m.id] == m && HasLostPiece(cfg, s.nodes[c], m)
    requires NoRestart(acts, c) && KeepsFragKeys(acts, c, m.id)
    ensures Acceptances(cfg, s, acts, c, m.id) == 0
    decreases |acts|
  {
    if acts != [] {
      assert acts[0] in acts && forall b :: b in acts[1..] ==> b in acts;
      LostPieceStays(cfg, s, acts[0], c, m);
      StepKeepsInv(cfg, s, acts[0]);
      LostPieceIsNeverAccepted(cfg, Step(cfg, s, acts[0]), acts[1..], c, m);
    }
  }

  /**
    * The exact condition for a fragmented message, stored or not: in any run that delivers all its fragments and in
    * which the node neither restarts nor expires its collector or its keys, it is accepted, exactly once, if
    * and only if it was unseen at the start and no seen fragment of it was missing from the collector.
    */
  lemma FragmentsAcceptedIff(cfg: Config, s: Net, acts: seq<Action>, c: Callsign, m: Msg)
    requires Inv(cfg, s) && Valid(cfg, s, acts) && c in s.nodes
    requires m.id in s.posted && s.posted[m.id] == m && 0 < Count(cfg, m) <= MAX_FRAGMENTS
    requires DeliversAll(cfg, acts, c, m)
    requires KeepsCollector(acts, c, m.id) && KeepsFragKeys(acts, c, m.id) && KeepsSeen(acts, c, m.id)
    ensures Acceptances(cfg, s, acts, c, m.id) == if IsOpenAgain(cfg, s.nodes[c], m) then 1 else 0
  {
    AcceptedOncePerEpoch(cfg, s, acts, c, m.id);
    if IsOpenAgain(cfg, s.nodes[c], m) {
      FragmentsAreAccepted(cfg, s, acts, c, m);
    } else if MsgKey(m.id) !in s.nodes[c].seen {
      LostPieceIsNeverAccepted(cfg, s, acts, c, m);
    }
  }

  /** A collector never holds all pieces. */
  lemma NotAllPieces(cfg: Config, s: Net, c: Callsign, m: Msg)
    requires Inv(cfg, s) && c in s.nodes && m.id in s.posted && s.posted[m.id] == m && Count(cfg, m) > 0
    ensures exists f :: f in FramesFor(cfg, m) && !(f.FragF? && f.frag.idx in Held(s.nodes[c].partials, m.id))
  {
    var frags := FragmentsOf(m, cfg.threshold, cfg.codec);
    var n := s.nodes[c];
    assert NodeOk(cfg, s.posted, c, n);
    var i := IndexNotHeld(cfg, s.posted, n, m);
    assert FramesFor(cfg, m)[i] == FragF(frags[i]);
    assert FragF(frags[i]) in FramesFor(cfg, m);
  }

  lemma IndexNotHeld(cfg: Config, posted: Store, n: NodeState, m: Msg) returns (i: nat)
    requires m.id in posted && posted[m.id] == m && Count(cfg, m) > 0
    requires m.id in n.partials ==> PartialOk(cfg, posted, m.id, n.partials[m.id])
    ensures i < Count(cfg, m) && i !in Held(n.partials, m.id)
  {
    if m.id !in n.partials {
      i := 0;
    } else {
      CompleteIffNoneMissing(n.partials[m.id]);
      i :| 0 <= i < Count(cfg, m) && i !in n.partials[m.id].parts;
    }
  }

  /** The keys of a message and of its fragments. */
  ghost function KeysFor(cfg: Config, m: Msg): set<SeenKey> {
    {MsgKey(m.id)} + set i | 0 <= i < Count(cfg, m) :: FragKey(m.id, i)
  }

  /**
    * It happens: a stored message that travelled as fragments is accepted again when its keys have expired, or the
    * node has restarted, and all its fragments come again.
    */
  lemma FragmentsAcceptedAgain(cfg: Config, s: Net, c: Callsign, m: Msg, restart: bool)
    requires Inv(cfg, s) && c in s.nodes && m.id in s.nodes[c].store && s.nodes[c].store[m.id] == m
    requires 0 < Count(cfg, m) <= MAX_FRAGMENTS && forall f :: f in FramesFor(cfg, m) ==> f in s.air
    ensures var forget := if restart then Reboot(c) else ForgetSeen(c, KeysFor(cfg, m));
            var acts := [forget] + Deliveries(c, FramesFor(cfg, m));
            Valid(cfg, s, acts) && Acceptances(cfg, s, acts, c, m.id) >= 1
  {
    var forget := if restart then Reboot(c) else ForgetSeen(c, KeysFor(cfg, m));
    var acts := [forget] + Deliveries(c, FramesFor(cfg, m));
    assert NodeOk(cfg, s.posted, c, s.nodes[c]);
    StepKeepsInv(cfg, s, forget);
    var t := Step(cfg, s, forget);
    DeliveriesRun(cfg, t, c, FramesFor(cfg, m));
    assert acts[1..] == Deliveries(c, FramesFor(cfg, m));
    assert IsOpenAgain(cfg, t.nodes[c], m) by {
      assert forall i :: 0 <= i < Count(cfg, m) && !restart ==> FragKey(m.id, i) in KeysFor(cfg, m);
      assert MsgKey(m.id) in KeysFor(cfg, m);
    }
    FragmentsAreAccepted(cfg, t, acts[1..], c, m);
  }
}
