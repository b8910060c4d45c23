/** The protocol state of one node, and what each daemon handler does to it. */
module Node {
  import opened Wrappers
  import opened Messages
  import opened VectorClock
  import opened Fragmentation

  /** Keys of the seen cache. The three kinds are taken to be distinct. */
  datatype SeenKey = MsgKey(id: MsgId) | FragKey(id: MsgId, idx: int) | NodeKey(callsign: Callsign)

  /**
    * store: the messages table. seen: the keys of the seen cache. queue: the frames with a row
    * in the transmission queue that is still to be sent. partials: the fragment collectors.
    */
  datatype NodeState = NodeState(store: Store, seen: set<SeenKey>, queue: set<Frame>, partials: Partials)

  const EMPTY_NODE := NodeState(map[], {}, {}, map[])

  /** What all nodes share: the fragment threshold and the serializer. */
  datatype Config = Config(threshold: int, codec: Codec)

  /** What the client hands to SendMessage, with the id computed from it. */
  datatype Draft = Draft(id: MsgId, time: int, channel: string, replyTo: Option<MsgId>, body: string, author: string)

  /** The frames that carry a message: itself, or its fragments. */
  function FramesFor(cfg: Config, m: Msg): seq<Frame> {
    var frags := FragmentsOf(m, cfg.threshold, cfg.codec);
    if |frags| > 0 then seq(|frags|, i requires 0 <= i < |frags| => FragF(frags[i]))
    else [MsgF(m)]
  }

  function FrameSet(cfg: Config, m: Msg): set<Frame> {
    set f | f in FramesFor(cfg, m)
  }

  function FramesForAll(cfg: Config, ms: set<Msg>): set<Frame> {
    set m, f | m in ms && f in FramesFor(cfg, m) :: f
  }

  /** Does the unique index on (from_node, seq) already hold this message's pair? */
  predicate SeqTaken(store: Store, m: Msg) {
    m.seqNo.Some? && exists id :: id in store && store[id].from == m.from && store[id].seqNo == m.seqNo
  }

  /** INSERT OR IGNORE: a row that violates the primary key or the unique index is dropped. */
  function InsertOrIgnore(store: Store, m: Msg): Store {
    if m.id in store || SeqTaken(store, m) then store else store[m.id := m]
  }

  ghost predicate IsMax(s: set<int>, top: int) {
    top in s && forall x :: x in s ==> x <= top
  }

  lemma {:induction false} MaxExists(s: set<int>)
    requires s != {}
    ensures exists top :: IsMax(s, top)
    decreases |s|
  {
    assert (forall x :: x !in s) ==> s == {};
    var x :| x in s;
    var rest := s - {x};
    assert forall z :: z in s ==> z == x || z in rest;
    if rest == {} {
      assert IsMax(s, x);
    } else {
      MaxExists(rest);
      var y :| IsMax(rest, y);
      assert IsMax(s, if x < y then y else x);
    }
  }

  ghost function MaxOf(s: set<int>): (r: int)
    requires s != {}
    ensures IsMax(s, r)
  {
    MaxExists(s);
    var top :| IsMax(s, top);
    top
  }

  /** COALESCE(MAX(seq), 0) + 1 over one origin's rows. */
  ghost function NextSeq(store: Store, origin: Callsign): int {
    var s := SeqsOf(store, origin);
    (if s == {} then 0 else MaxOf(s)) + 1
  }

  ghost function Compose(n: NodeState, me: Callsign, d: Draft): Msg {
    Msg(d.id, me, d.time, d.channel, d.replyTo, d.body, Some(NextSeq(n.store, me)), d.author)
  }

  /** SendMessage: a plain INSERT, which fails when the id is already stored. */
  ghost function Post(cfg: Config, n: NodeState, me: Callsign, d: Draft): Result<NodeState, ()> {
    var m := Compose(n, me, d);
    if m.id in n.store || SeqTaken(n.store, m) then Err(())
    else Ok(n.(store := n.store[m.id := m], queue := n.queue + FrameSet(cfg, m), seen := n.seen + {MsgKey(m.id)}))
  }

  /** handleMSG. */
  function HandleMsg(cfg: Config, n: NodeState, me: Callsign, m: Msg): NodeState {
    if MsgKey(m.id) in n.seen then n
    else n.(
      seen := n.seen + {MsgKey(m.id)},
      store := InsertOrIgnore(n.store, m),
      queue := if m.from == me then n.queue else n.queue + FrameSet(cfg, m))
  }

  /** handleFRAG: marked seen first, whatever the collector says. */
  function HandleFrag(cfg: Config, n: NodeState, me: Callsign, f: Frag): NodeState {
    if FragKey(f.id, f.idx) in n.seen then n
    else
      var added := AddFragment(n.partials, f, cfg.codec);
      var n1 := n.(seen := n.seen + {FragKey(f.id, f.idx)}, partials := added.partials);
      if added.done.Some? then HandleMsg(cfg, n1, me, added.done.value) else n1
  }

  /** The rows an advertised clock asks for. */
  function Missing(store: Store, sender: Callsign, vector: Vector): set<Msg> {
    var ours := Clock(store);
    set id | id in store
             && store[id].from != sender
             && (store[id].from in vector || store[id].from in ours)
             && store[id].seqNo.Some?
             && store[id].seqNo.value > (if store[id].from in vector then vector[store[id].from] else 0)
      :: store[id]
  }

  /** handleSVEC. */
  function HandleSvec(cfg: Config, n: NodeState, sender: Callsign, vector: Vector): NodeState {
    n.(seen := n.seen + {NodeKey(sender)}, queue := n.queue + FramesForAll(cfg, Missing(n.store, sender, vector)))
  }

  /** What the frame parser accepts of a FRAG. */
  predicate FragParses(f: Frag) {
    1 <= f.total <= MAX_FRAGMENTS && 0 <= f.idx < f.total
  }

  /** handleReceivedFrame: a frame that does not parse is dropped. */
  function Receive(cfg: Config, n: NodeState, me: Callsign, f: Frame): NodeState {
    match f
    case MsgF(m) => HandleMsg(cfg, n, me, m)
    case FragF(g) => if FragParses(g) then HandleFrag(cfg, n, me, g) else n
    case SvecF(sender, vector) => HandleSvec(cfg, n, sender, vector)
  }

  /** The message that handleMSG takes as new: shown to the client, and stored unless it already is. */
  function AcceptsMsg(n: NodeState, m: Msg): Option<Msg> {
    if MsgKey(m.id) in n.seen then None else Some(m)
  }

  /** The message that handleFRAG passes on and that is taken as new. */
  function AcceptsFrag(cfg: Config, n: NodeState, g: Frag): Option<Msg> {
    if FragKey(g.id, g.idx) in n.seen then None
    else
      var done := AddFragment(n.partials, g, cfg.codec).done;
      if done.Some? then AcceptsMsg(n, done.value) else None
  }

  function Accepts(cfg: Config, n: NodeState, f: Frame): Option<Msg> {
    match f
    case MsgF(m) => AcceptsMsg(n, m)
    case FragF(g) => if FragParses(g) then AcceptsFrag(cfg, n, g) else None
    case SvecF(_, _) => None
  }

  /** The frames queued for a taken message, in order; none for a message of one's own. */
  function Forwards(cfg: Config, me: Callsign, taken: Option<Msg>): seq<Frame> {
    if taken.Some? && taken.value.from != me then FramesFor(cfg, taken.value) else []
  }

  /** The end of a queue row: sent, or given up after the last attempt. */
  function DropFrame(n: NodeState, f: Frame): NodeState {
    n.(queue := n.queue - {f})
  }

  /** The expiry of some seen keys, and of some collectors. */
  function Forget(n: NodeState, gone: set<SeenKey>): NodeState {
    n.(seen := n.seen - gone)
  }

  function ExpireCollectors(n: NodeState, ids: set<MsgId>): NodeState {
    n.(partials := n.partials - ids)
  }

  /** broadcastSVEC. */
  function BroadcastSvec(n: NodeState, me: Callsign): NodeState {
    n.(queue := n.queue + {SvecF(me, Clock(n.store))})
  }

  /** Reopening the database drops the seen cache; the collectors live in memory. */
  function Restart(n: NodeState): NodeState {
    n.(seen := {}, partials := map[])
  }
}
