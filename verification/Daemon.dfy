/** The daemon: its handlers, statement by statement, over the database and the fragmenter. */
module Daemons {
  import opened Wrappers
  import opened Messages
  import opened VectorClock
  import opened Fragmentation
  import opened Fragmenters
  import opened Node
  import opened Tables
  import opened TransmissionQueue
  import opened Storage

  /** The same delay for every row. */
  function Always(delay: int): int -> int {
    _ => delay
  }

  predicate IsUnsent(r: QueueRow) {
    r.status.Pending? || r.status.Transmitting?
  }

  /** The frames that still have a row to be sent. */
  ghost function Unsent(q: Queue): set<Frame> {
    set id | id in q && IsUnsent(q[id]) :: q[id].frame
  }

  lemma UnsentWhere(q: Queue, f: Frame) returns (id: int)
    requires f in Unsent(q)
    ensures id in q && IsUnsent(q[id]) && q[id].frame == f
  {
    id :| id in q && IsUnsent(q[id]) && q[id].frame == f;
  }

  ghost predicate IsNewRow(q: Queue, id: int, f: Frame) {
    id in q && q[id].frame == f && q[id].status.Pending? && q[id].attempts == 0
  }

  /** The row was created now and is due after one of the given delays, never earlier than now. */
  ghost predicate IsScheduled(r: QueueRow, now: int, delays: int -> int) {
    r.createdAt == now && exists i :: r.scheduledAt == DueTime(now, delays(i))
  }

  /**
    * The table gained one pending row per frame, in order, under fresh ids, created now and scheduled by the
    * given delays, and nothing else.
    */
  ghost predicate Appended(q: Queue, last: int, after: Queue, lastAfter: int, frames: seq<Frame>,
                           now: int, delays: int -> int)
  {
    && lastAfter == last + |frames|
    && (forall id :: id in after <==> id in q || last < id <= lastAfter)
    && (forall id :: id in q ==> id <= last && after[id] == q[id])
    && (forall i :: 0 <= i < |frames| ==> IsNewRow(after, last + 1 + i, frames[i]))
    && forall id :: last < id <= lastAfter ==> IsScheduled(after[id], now, delays)
  }

  /** The first n rows behind last are scheduled by the first n delays, in order. */
  ghost predicate InDelayOrder(q: Queue, last: int, n: nat, now: int, delays: int -> int) {
    forall i :: 0 <= i < n ==> IsDelayed(q, last + 1 + i, now, delays(i))
  }

  ghost predicate IsDelayed(q: Queue, id: int, now: int, delay: int) {
    id in q && q[id].scheduledAt == DueTime(now, delay)
  }

  lemma DelayOrderStep(q: Queue, last: int, n: nat, f: Frame, now: int, delays: int -> int)
    requires InDelayOrder(q, last, n, now, delays)
    ensures InDelayOrder(q[last + n + 1 := NewRow(f, now, delays(n))], last, n + 1, now, delays)
  {
    var t := q[last + n + 1 := NewRow(f, now, delays(n))];
    forall i | 0 <= i < n + 1
      ensures IsDelayed(t, last + 1 + i, now, delays(i))
    {
      if i < n {
        assert IsDelayed(q, last + 1 + i, now, delays(i));
      }
    }
  }

  lemma AppendedUnsent(q: Queue, last: int, after: Queue, lastAfter: int, frames: seq<Frame>, now: int, delays: int -> int)
    requires Appended(q, last, after, lastAfter, frames, now, delays)
    ensures Unsent(after) == Unsent(q) + set f | f in frames
  {
    forall f | f in Unsent(q)
      ensures f in Unsent(after)
    {
      var id := UnsentWhere(q, f);
      assert id in after && after[id] == q[id];
    }
    forall f | f in frames
      ensures f in Unsent(after)
    {
      var i :| 0 <= i < |frames| && frames[i] == f;
      assert IsNewRow(after, last + 1 + i, frames[i]);
    }
    forall f | f in Unsent(after)
      ensures f in Unsent(q) || f in frames
    {
      var id := UnsentWhere(after, f);
      if id !in q {
        assert IsNewRow(after, last + 1 + (id - last - 1), frames[id - last - 1]);
      }
    }
  }

  /** A cleanup discards finished rows only. */
  lemma CleanupKeepsUnsent(q: Queue, now: int)
    ensures Unsent(TransmissionQueue.Cleanup(q, now)) == Unsent(q)
  {
    var t := TransmissionQueue.Cleanup(q, now);
    forall f | f in Unsent(q)
      ensures f in Unsent(t)
    {
      var id := UnsentWhere(q, f);
      assert id in t && IsUnsent(t[id]) && t[id].frame == f;
    }
    forall f | f in Unsent(t)
      ensures f in Unsent(q)
    {
      var id := UnsentWhere(t, f);
      assert id in q && IsUnsent(q[id]) && q[id].frame == f;
    }
  }

  /** Changing the state of one row changes the unsent frames by that row's frame at most. */
  lemma RowChangeUnsent(q: Queue, t: Queue, id: int)
    requires id in q && t.Keys == q.Keys && t[id].frame == q[id].frame && IsUnsent(q[id])
    requires forall other :: other in q && other != id ==> t[other] == q[other]
    ensures q[id].frame in Unsent(q)
    ensures Unsent(t) == Unsent(q) || (!IsUnsent(t[id]) && Unsent(t) == Unsent(q) - {q[id].frame})
    ensures IsUnsent(t[id]) ==> Unsent(t) == Unsent(q)
  {
    var f := q[id].frame;
    forall x | x in Unsent(q) && x != f
      ensures x in Unsent(t)
    {
      var other := UnsentWhere(q, x);
      assert other in t && IsUnsent(t[other]) && t[other].frame == x;
    }
    forall x | x in Unsent(t)
      ensures x in Unsent(q)
    {
      var other := UnsentWhere(t, x);
      assert other in q && IsUnsent(q[other]) && q[other].frame == x;
    }
    assert f in Unsent(t) ==> Unsent(t) == Unsent(q);
    assert f !in Unsent(t) ==> Unsent(t) == Unsent(q) - {f};
    if IsUnsent(t[id]) {
      assert f in Unsent(t);
    }
  }

  lemma AppendedTwice(q: Queue, last: int, mid: Queue, lastMid: int, after: Queue, lastAfter: int,
                      a: seq<Frame>, b: seq<Frame>, now: int, delays: int -> int)
    requires Appended(q, last, mid, lastMid, a, now, delays) && Appended(mid, lastMid, after, lastAfter, b, now, delays)
    ensures Appended(q, last, after, lastAfter, a + b, now, delays)
  {
    var both := a + b;
    forall i | 0 <= i < |both|
      ensures IsNewRow(after, last + 1 + i, both[i])
    {
      if i < |a| {
        assert IsNewRow(mid, last + 1 + i, a[i]);
      } else {
        assert IsNewRow(after, lastMid + 1 + (i - |a|), b[i - |a|]);
      }
    }
  }

  /** The frames of a list of messages, one message after the other. */
  ghost function FramesInOrder(cfg: Config, ms: seq<Msg>): seq<Frame> {
    if ms == [] then [] else FramesInOrder(cfg, ms[..|ms| - 1]) + FramesFor(cfg, ms[|ms| - 1])
  }

  lemma InOrderStep(cfg: Config, before: seq<Msg>, msgs: seq<Msg>, k: nat)
    requires k < |msgs|
    ensures FramesInOrder(cfg, before + msgs[..k + 1]) == FramesInOrder(cfg, before + msgs[..k]) + FramesFor(cfg, msgs[k])
  {
    var ms := before + msgs[..k + 1];
    assert ms[..|ms| - 1] == before + msgs[..k] && ms[|ms| - 1] == msgs[k];
  }

  lemma {:induction false} FramesInOrderSet(cfg: Config, ms: seq<Msg>)
    ensures (set f | f in FramesInOrder(cfg, ms)) == FramesForAll(cfg, set m | m in ms)
  {
    if ms != [] {
      var front, last := ms[..|ms| - 1], ms[|ms| - 1];
      assert ms == front + [last];
      FramesInOrderSet(cfg, front);
      assert (set f | f in FramesInOrder(cfg, ms)) == (set f | f in FramesInOrder(cfg, front)) + FrameSet(cfg, last);
      assert FramesForAll(cfg, set m | m in ms) == FramesForAll(cfg, set m | m in front) + FrameSet(cfg, last);
    }
  }

  ghost predicate NoRepeats(ms: seq<Msg>) {
    forall i, j :: 0 <= i < j < |ms| ==> ms[i] != ms[j]
  }

  /** The list is the missing rows, each once. */
  ghost predicate IsMissingList(ms: seq<Msg>, messages: Store, sender: Callsign, vector: Vector) {
    NoRepeats(ms) && InOriginOrder(ms) && forall m :: m in ms <==> m in Missing(messages, sender, vector)
  }

  /** The row is one that a clock asks for: of another origin, and above the number advertised for it, if any. */
  ghost predicate IsAskedFor(messages: Store, sender: Callsign, vector: Vector, m: Msg) {
    && m.id in messages && messages[m.id] == m && m.from != sender && m.seqNo.Some?
    && if m.from in vector then m.seqNo.value > vector[m.from] else m.from in Clock(messages) && m.seqNo.value > 0
  }

  lemma MissingIff(messages: Store, sender: Callsign, vector: Vector)
    requires forall id :: id in messages ==> messages[id].id == id
    ensures forall m :: m in Missing(messages, sender, vector) <==> IsAskedFor(messages, sender, vector, m)
  {
  }

  /** The messages of each origin come in the order of their numbers. */
  ghost predicate InOriginOrder(ms: seq<Msg>) {
    forall i, j :: 0 <= i < j < |ms| && ms[i].from == ms[j].from ==>
      ms[i].seqNo.Some? && ms[j].seqNo.Some? && ms[i].seqNo.value < ms[j].seqNo.value
  }

  /** A new fragment is marked with the time, and so is the message it completes, if that is new. */
  ghost function SeenAfterFrag(seen: map<SeenKey, SeenRow>, f: Frag, taken: Option<Msg>, me: Callsign,
                               now: int): map<SeenKey, SeenRow>
  {
    if FragKey(f.id, f.idx) in seen then seen
    else
      var marked := seen[FragKey(f.id, f.idx) := SeenRow(now, false)];
      if taken.Some? then marked[MsgKey(taken.value.id) := SeenRow(now, taken.value.from != me)] else marked
  }

  /** The columns of a node after handling a new fragment make up the step. */
  lemma FragStep(cfg: Config, n: NodeState, me: Callsign, f: Frag, added: Added, t: NodeState)
    requires FragKey(f.id, f.idx) !in n.seen && added == AddFragment(n.partials, f, cfg.codec)
    requires var taken := AcceptsFrag(cfg, n, f);
             && t.partials == added.partials
             && t.store == (if taken.Some? then InsertOrIgnore(n.store, taken.value) else n.store)
             && t.seen == n.seen + {FragKey(f.id, f.idx)} + (if taken.Some? then {MsgKey(taken.value.id)} else {})
             && t.queue == n.queue + (set x | x in Forwards(cfg, me, taken))
    ensures t == HandleFrag(cfg, n, me, f)
  {
  }

  /** Earlier rows of the seen cache stay as they are, or are renewed now. */
  ghost predicate KeepsSeenRows(before: map<SeenKey, SeenRow>, after: map<SeenKey, SeenRow>, now: int) {
    && (forall key :: key in before ==> key in after)
    && forall key :: key in after ==> (key in before && after[key] == before[key]) || after[key].seenAt == now
  }

  /** The rows to push for the origins checked so far, each once. */
  ghost predicate IsPushedFor(ms: seq<Msg>, messages: Store, sender: Callsign, merged: Vector, done: set<Callsign>) {
    && NoRepeats(ms) && InOriginOrder(ms) && done <= merged.Keys
    && forall m :: m in ms <==>
         m.from != sender && m.from in done && m.id in messages && messages[m.id] == m && Selected(m, m.from, merged[m.from])
  }

  lemma PushedStep(before: seq<Msg>, after: seq<Msg>, messages: Store, sender: Callsign, merged: Vector,
                   done: set<Callsign>, node: Callsign)
    requires IsPushedFor(before, messages, sender, merged, done) && node in merged && node !in done
    requires NoRepeats(after) && InOriginOrder(after)
    requires if node == sender then after == before
             else forall m :: m in after <==>
                    m in before || (m.id in messages && messages[m.id] == m && Selected(m, node, merged[node]))
    ensures IsPushedFor(after, messages, sender, merged, done + {node})
  {
  }

  lemma AppendNoRepeats(before: seq<Msg>, msgs: seq<Msg>, node: Callsign)
    requires NoRepeats(before) && InOriginOrder(before) && Ascending(msgs)
    requires forall m :: m in before ==> m.from != node
    requires forall m :: m in msgs ==> m.from == node
    ensures NoRepeats(before + msgs) && InOriginOrder(before + msgs)
  {
    assert forall i :: 0 <= i < |before| ==> before[i] in before;
    assert forall j :: 0 <= j < |msgs| ==> msgs[j] in msgs;
  }

  lemma AllPushed(pushed: seq<Msg>, messages: Store, sender: Callsign, vector: Vector, merged: Vector)
    requires IsMerge(vector, Clock(messages), merged)
    requires forall id :: id in messages ==> messages[id].id == id
    requires IsPushedFor(pushed, messages, sender, merged, merged.Keys)
    ensures IsMissingList(pushed, messages, sender, vector)
  {
    forall m
      ensures m in pushed <==> m in Missing(messages, sender, vector)
    {
      MissingOf(messages, sender, vector, merged, m);
    }
  }

  lemma PushedUnsent(cfg: Config, q: Queue, last: int, after: Queue, lastAfter: int, pushed: seq<Msg>,
                     messages: Store, sender: Callsign, vector: Vector, now: int, delays: int -> int)
    requires Appended(q, last, after, lastAfter, FramesInOrder(cfg, pushed), now, delays)
    requires IsMissingList(pushed, messages, sender, vector)
    ensures Unsent(after) == Unsent(q) + FramesForAll(cfg, Missing(messages, sender, vector))
  {
    FramesInOrderSet(cfg, pushed);
    AppendedUnsent(q, last, after, lastAfter, FramesInOrder(cfg, pushed), now, delays);
    assert (set m | m in pushed) == Missing(messages, sender, vector);
  }

  /** The origins already checked and those still to check. */
  ghost predicate IsSplit(all: set<Callsign>, done: set<Callsign>, todo: set<Callsign>) {
    done == all - todo && todo <= all
  }

  lemma MoveOne(all: set<Callsign>, done: set<Callsign>, todo: set<Callsign>, node: Callsign)
    requires IsSplit(all, done, todo) && node in todo
    ensures node in all && node !in done && IsSplit(all, done + {node}, todo - {node})
  {
  }

  lemma NothingLeft(all: set<Callsign>, done: set<Callsign>)
    requires IsSplit(all, done, {})
    ensures done == all
  {
  }

  /** The columns of a node after a post make up the step. */
  lemma PostIs(cfg: Config, n: NodeState, t: NodeState, me: Callsign, d: Draft, r: Result<Msg, ()>)
    requires r.Err? <==> d.id in n.store
    requires r.Err? ==> t == n
    requires r.Ok? ==> IsDraft(r.value, d, me) && r.value.seqNo == Some(NextSeq(n.store, me))
    requires r.Ok? ==>
               t == n.(store := n.store[d.id := r.value], queue := n.queue + FrameSet(cfg, r.value),
                       seen := n.seen + {MsgKey(d.id)})
    ensures Post(cfg, n, me, d) == (if r.Ok? then Ok(t) else Err(()))
    ensures r.Ok? ==> r.value == Compose(n, me, d)
  {
    if r.Ok? {
      NextNumber(n.store, me);
      NextNumberIsFree(n.store, r.value);
    }
  }

  class Daemon {
    const callsign: Callsign
    const db: Database
    const fragmenter: Fragmenter

    /** A daemon starts on a database it reopens: the seen cache is dropped, everything else is kept. */
    constructor (callsign: Callsign, threshold: int, codec: Codec, db: Database)
      requires db.Valid()
      modifies db`seen
      ensures Valid() && this.callsign == callsign && this.db == db && Cfg() == Config(threshold, codec)
      ensures State() == NodeState(old(db.messages), {}, Unsent(old(db.queue)), map[])
    {
      this.callsign := callsign;
      this.db := db;
      this.fragmenter := new Fragmenter(threshold, codec);
      new;
      db.Reopen();
    }

    ghost predicate Valid()
      reads db, fragmenter
    {
      db.Valid() && fragmenter.Valid()
    }

    ghost function Cfg(): Config {
      Config(fragmenter.threshold, fragmenter.codec)
    }

    ghost function State(): NodeState
      reads db, fragmenter, fragmenter.collectors.Values
    {
      DbState(fragmenter.View())
    }

    /** The part of the state that the database holds, beside the given collectors. */
    ghost function DbState(ps: Partials): NodeState
      reads db
    {
      NodeState(db.messages, db.seen.Keys, Unsent(db.queue), ps)
    }

    /** Queues one frame behind those already appended to a table, after the i-th of the delays. */
    method QueueFrame(f: Frame, now: int, delays: int -> int, i: int,
                      ghost q: Queue, ghost last: int, ghost done: seq<Frame>)
      requires db.QueueValid() && Appended(q, last, db.queue, db.lastId, done, now, delays)
      modifies db`queue, db`lastId
      ensures db.QueueValid() && Appended(q, last, db.queue, db.lastId, done + [f], now, delays)
      ensures db.lastId == old(db.lastId) + 1 && db.queue == old(db.queue)[db.lastId := NewRow(f, now, delays(i))]
    {
      db.QueueTransmission(f, now, delays(i));
      AppendedTwice(q, last, old(db.queue), old(db.lastId), db.queue, db.lastId, done, [f], now, delays);
    }

    /** Queues a message as it is, or fragment by fragment, the i-th frame after the i-th delay. */
    method QueueMessage(m: Msg, now: int, delays: int -> int)
      requires db.QueueValid()
      modifies db`queue, db`lastId
      ensures db.QueueValid()
      ensures Appended(old(db.queue), old(db.lastId), db.queue, db.lastId, FramesFor(Cfg(), m), now, delays)
      ensures InDelayOrder(db.queue, old(db.lastId), |FramesFor(Cfg(), m)|, now, delays)
    {
      var frags := fragmenter.FragmentMessage(m);
      if |frags| > 0 {
        QueueFragments(frags, now, delays);
        assert seq(|frags|, i requires 0 <= i < |frags| => FragF(frags[i])) == FramesFor(Cfg(), m);
      } else {
        QueueFrame(MsgF(m), now, delays, 0, old(db.queue), old(db.lastId), []);
        assert [] + [MsgF(m)] == FramesFor(Cfg(), m);
      }
    }

    /** The loop over the fragments of a message. */
    method QueueFragments(frags: seq<Frag>, now: int, delays: int -> int)
      requires db.QueueValid()
      modifies db`queue, db`lastId
      ensures db.QueueValid()
      ensures Appended(old(db.queue), old(db.lastId), db.queue, db.lastId,
                       seq(|frags|, i requires 0 <= i < |frags| => FragF(frags[i])), now, delays)
      ensures InDelayOrder(db.queue, old(db.lastId), |frags|, now, delays)
    {
      ghost var frames := seq(|frags|, i requires 0 <= i < |frags| => FragF(frags[i]));
      for i := 0 to |frags|
        invariant db.QueueValid() && db.lastId == old(db.lastId) + i
        invariant Appended(old(db.queue), old(db.lastId), db.queue, db.lastId, frames[..i], now, delays)
        invariant InDelayOrder(db.queue, old(db.lastId), i, now, delays)
      {
        ghost var mid := db.queue;
        QueueFrame(FragF(frags[i]), now, delays, i, old(db.queue), old(db.lastId), frames[..i]);
        DelayOrderStep(mid, old(db.lastId), i, FragF(frags[i]), now, delays);
        assert frames[..i] + [frames[i]] == frames[..i + 1];
      }
      assert frames[..|frags|] == frames;
    }

    /** Queues a message, and says which frames now wait. */
    method Enqueue(m: Msg, now: int, delays: int -> int)
      requires db.QueueValid()
      modifies db`queue, db`lastId
      ensures db.QueueValid() && Unsent(db.queue) == Unsent(old(db.queue)) + FrameSet(Cfg(), m)
      ensures Appended(old(db.queue), old(db.lastId), db.queue, db.lastId, FramesFor(Cfg(), m), now, delays)
    {
      QueueMessage(m, now, delays);
      AppendedUnsent(old(db.queue), old(db.lastId), db.queue, db.lastId, FramesFor(Cfg(), m), now, delays);
    }

    /** handleMSG; shown tells whether the client was notified. */
    method HandleMSG(m: Msg, now: int, delays: int -> int) returns (shown: bool)
      requires Valid()
      modifies db
      ensures Valid()
      ensures State() == HandleMsg(Cfg(), old(State()), callsign, m)
      ensures shown <==> MsgKey(m.id) !in old(db.seen)
      ensures db.seen == if shown then old(db.seen)[MsgKey(m.id) := SeenRow(now, m.from != callsign)] else old(db.seen)
      ensures Appended(old(db.queue), old(db.lastId), db.queue, db.lastId,
                       Forwards(Cfg(), callsign, AcceptsMsg(old(State()), m)), now, delays)
      ensures db.View() == if shown then Save(old(db.View()), m) else old(db.View())
    {
      shown := StoreAndForward(m, now, delays);
    }

    /** The same, column by column. */
    method StoreAndForward(m: Msg, now: int, delays: int -> int) returns (shown: bool)
      requires db.Valid()
      modifies db
      ensures db.Valid()
      ensures shown <==> MsgKey(m.id) !in old(db.seen)
      ensures db.View() == if shown then Save(old(db.View()), m) else old(db.View())
      ensures db.messages == if shown then InsertOrIgnore(old(db.messages), m) else old(db.messages)
      ensures db.seen == if shown then old(db.seen)[MsgKey(m.id) := SeenRow(now, m.from != callsign)] else old(db.seen)
      ensures Unsent(db.queue) == Unsent(old(db.queue)) + (if shown && m.from != callsign then FrameSet(Cfg(), m) else {})
      ensures Appended(old(db.queue), old(db.lastId), db.queue, db.lastId,
                       Forwards(Cfg(), callsign, if shown then Some(m) else None), now, delays)
    {
      var isNew := db.MarkSeenIfNew(MsgKey(m.id), now);
      if !isNew {
        return false;
      }
      var saved := db.SaveMessage(m);
      shown := true;
      if m.from == callsign {
        return;
      }
      Enqueue(m, now, delays);
      db.MarkSeen(MsgKey(m.id), true, now);
    }

    method HandleFRAG(f: Frag, now: int, delays: int -> int)
      requires Valid()
      modifies db, fragmenter, fragmenter.collectors.Values
      ensures Valid()
      ensures State() == HandleFrag(Cfg(), old(State()), callsign, f)
      ensures db.seen == SeenAfterFrag(old(db.seen), f, AcceptsFrag(Cfg(), old(State()), f), callsign, now)
      ensures fragmenter.StartedBy(old(fragmenter.collectors), now)
      ensures Appended(old(db.queue), old(db.lastId), db.queue, db.lastId,
                       Forwards(Cfg(), callsign, AcceptsFrag(Cfg(), old(State()), f)), now, delays)
    {
      var isNew := db.MarkSeenIfNew(FragKey(f.id, f.idx), now);
      if !isNew {
        return;
      }
      HandleNewFrag(f, now, delays, old(State()), old(db.seen));
    }

    /** The same for a fragment just marked; n and seenBefore are the node and its seen cache before the marking. */
    method HandleNewFrag(f: Frag, now: int, delays: int -> int, ghost n: NodeState, ghost seenBefore: map<SeenKey, SeenRow>)
      requires Valid() && State() == n.(seen := db.seen.Keys) && n.seen == seenBefore.Keys
      requires FragKey(f.id, f.idx) !in seenBefore && db.seen == seenBefore[FragKey(f.id, f.idx) := SeenRow(now, false)]
      modifies db, fragmenter, fragmenter.collectors.Values
      ensures Valid()
      ensures State() == HandleFrag(Cfg(), n, callsign, f)
      ensures db.seen == SeenAfterFrag(seenBefore, f, AcceptsFrag(Cfg(), n, f), callsign, now)
      ensures fragmenter.StartedBy(old(fragmenter.collectors), now)
      ensures Appended(old(db.queue), old(db.lastId), db.queue, db.lastId,
                       Forwards(Cfg(), callsign, AcceptsFrag(Cfg(), n, f)), now, delays)
    {
      var isNewPart, reassembled := fragmenter.AddFragment(f, now);
      assert db.Valid();
      FinishFrag(f, reassembled, now, delays, n, seenBefore, fragmenter.View());
    }

    /** The part behind the collector: the fragment is marked and collected, and its message, if complete, is passed on. */
    method FinishFrag(f: Frag, reassembled: Option<Msg>, now: int, delays: int -> int,
                      ghost n: NodeState, ghost seenBefore: map<SeenKey, SeenRow>, ghost ps: Partials)
      requires db.Valid()
      requires n.store == db.messages && n.seen == seenBefore.Keys && n.queue == Unsent(db.queue)
      requires FragKey(f.id, f.idx) !in seenBefore && db.seen == seenBefore[FragKey(f.id, f.idx) := SeenRow(now, false)]
      requires var added := Fragmentation.AddFragment(n.partials, f, fragmenter.codec);
               added.partials == ps && added.done == reassembled
      modifies db
      ensures db.Valid() && fragmenter.View() == old(fragmenter.View())
      ensures DbState(ps) == HandleFrag(Cfg(), n, callsign, f)
      ensures db.seen == SeenAfterFrag(seenBefore, f, AcceptsFrag(Cfg(), n, f), callsign, now)
      ensures Appended(old(db.queue), old(db.lastId), db.queue, db.lastId,
                       Forwards(Cfg(), callsign, AcceptsFrag(Cfg(), n, f)), now, delays)
    {
      PassOn(reassembled, now, delays);
      FragStep(Cfg(), n, callsign, f, Fragmentation.AddFragment(n.partials, f, fragmenter.codec), DbState(ps));
    }

    /** The end of handleFRAG: a completed message is handled. */
    method PassOn(reassembled: Option<Msg>, now: int, delays: int -> int)
      requires db.Valid()
      modifies db
      ensures db.Valid()
      ensures var taken := if reassembled.Some? && MsgKey(reassembled.value.id) !in old(db.seen) then reassembled else None;
              && db.messages == (if taken.Some? then InsertOrIgnore(old(db.messages), taken.value) else old(db.messages))
              && db.seen == (if taken.Some?
                             then old(db.seen)[MsgKey(taken.value.id) := SeenRow(now, taken.value.from != callsign)]
                             else old(db.seen))
              && Unsent(db.queue) == Unsent(old(db.queue)) + (set x | x in Forwards(Cfg(), callsign, taken))
              && Appended(old(db.queue), old(db.lastId), db.queue, db.lastId, Forwards(Cfg(), callsign, taken), now, delays)
    {
      if reassembled.Some? {
        var shown := StoreAndForward(reassembled.value, now, delays);
      }
    }

    /** handleSVEC: pushes every row the clock lacks, once each, and nothing else. */
    method HandleSVEC(sender: Callsign, vector: Vector, now: int, delays: int -> int) returns (ghost pushed: seq<Msg>)
      requires Valid()
      modifies db
      ensures Valid()
      ensures State() == HandleSvec(Cfg(), old(State()), sender, vector)
      ensures db.seen == old(db.seen)[NodeKey(sender) := SeenRow(now, false)]
      ensures forall m :: m in pushed <==> IsAskedFor(old(db.messages), sender, vector, m)
      ensures InOriginOrder(pushed)
      ensures db.View() == Apply(old(db.View()), Synced(sender))
      ensures Appended(old(db.queue), old(db.lastId), db.queue, db.lastId, FramesInOrder(Cfg(), pushed), now, delays)
      ensures IsMissingList(pushed, old(db.messages), sender, vector)
    {
      RowsUnderTheirIds(db.View());
      pushed := AnswerClock(sender, vector, now, delays);
      MissingIff(old(db.messages), sender, vector);
    }

    /** The same, column by column. */
    method AnswerClock(sender: Callsign, vector: Vector, now: int, delays: int -> int) returns (ghost pushed: seq<Msg>)
      requires db.Valid()
      modifies db
      ensures db.Valid()
      ensures db.messages == old(db.messages) && db.seen == old(db.seen)[NodeKey(sender) := SeenRow(now, false)]
      ensures Unsent(db.queue) == Unsent(old(db.queue)) + FramesForAll(Cfg(), Missing(old(db.messages), sender, vector))
      ensures db.View() == Apply(old(db.View()), Synced(sender))
      ensures Appended(old(db.queue), old(db.lastId), db.queue, db.lastId, FramesInOrder(Cfg(), pushed), now, delays)
      ensures IsMissingList(pushed, old(db.messages), sender, vector)
    {
      db.MarkSeen(NodeKey(sender), false, now);
      db.UpdateNodeSync(sender);
      var ourClock := db.GetVectorClock();
      var nodesToCheck := NodesToCheck(vector, ourClock);
      pushed := PushAll(sender, vector, nodesToCheck, now, delays);
      PushedUnsent(Cfg(), old(db.queue), old(db.lastId), db.queue, db.lastId, pushed, db.messages, sender, vector, now, delays);
    }

    /** Pushes what the merged clocks ask for. */
    method PushAll(sender: Callsign, vector: Vector, merged: Vector, now: int, delays: int -> int) returns (ghost pushed: seq<Msg>)
      requires db.Valid() && IsMerge(vector, Clock(db.messages), merged)
      modifies db`queue, db`lastId
      ensures db.QueueValid()
      ensures Appended(old(db.queue), old(db.lastId), db.queue, db.lastId, FramesInOrder(Cfg(), pushed), now, delays)
      ensures IsMissingList(pushed, db.messages, sender, vector)
    {
      RowsUnderTheirIds(db.View());
      pushed := PushMerged(sender, merged, now, delays);
      AllPushed(pushed, db.messages, sender, vector, merged);
    }

    /** The loop over the merged clocks. */
    method PushMerged(sender: Callsign, merged: Vector, now: int, delays: int -> int) returns (ghost pushed: seq<Msg>)
      requires db.TablesValid() && db.QueueValid()
      modifies db`queue, db`lastId
      ensures db.QueueValid()
      ensures Appended(old(db.queue), old(db.lastId), db.queue, db.lastId, FramesInOrder(Cfg(), pushed), now, delays)
      ensures IsPushedFor(pushed, db.messages, sender, merged, merged.Keys)
    {
      pushed := [];
      var todo := merged.Keys;
      ghost var done: set<Callsign> := {};
      while todo != {}
        invariant db.QueueValid() && IsSplit(merged.Keys, done, todo)
        invariant Appended(old(db.queue), old(db.lastId), db.queue, db.lastId, FramesInOrder(Cfg(), pushed), now, delays)
        invariant IsPushedFor(pushed, db.messages, sender, merged, done)
        decreases |todo|
      {
        var node :| node in todo;
        MoveOne(merged.Keys, done, todo, node);
        pushed := PushOrigin(sender, merged, node, now, delays, pushed, done, old(db.queue), old(db.lastId));
        todo := todo - {node};
        done := done + {node};
      }
      NothingLeft(merged.Keys, done);
    }

    /** One turn of that loop: nothing for the sender's own messages, otherwise the origin's rows. */
    method PushOrigin(sender: Callsign, merged: Vector, node: Callsign, now: int, delays: int -> int,
                      ghost before: seq<Msg>, ghost done: set<Callsign>, ghost q: Queue, ghost last: int)
      returns (ghost pushed: seq<Msg>)
      requires db.TablesValid() && db.QueueValid() && node in merged && node !in done
      requires Appended(q, last, db.queue, db.lastId, FramesInOrder(Cfg(), before), now, delays)
      requires IsPushedFor(before, db.messages, sender, merged, done)
      modifies db`queue, db`lastId
      ensures db.QueueValid()
      ensures Appended(q, last, db.queue, db.lastId, FramesInOrder(Cfg(), pushed), now, delays)
      ensures IsPushedFor(pushed, db.messages, sender, merged, done + {node})
    {
      pushed := before;
      if node != sender {
        pushed := PushNode(node, merged[node], now, delays, before, q, last);
      }
      PushedStep(before, pushed, db.messages, sender, merged, done, node);
    }

    /** The inner loop of HandleSVEC: one origin's rows above the advertised number. */
    method PushNode(node: Callsign, remote: int, now: int, delays: int -> int,
                    ghost before: seq<Msg>, ghost q: Queue, ghost last: int) returns (ghost pushed: seq<Msg>)
      requires db.TablesValid() && db.QueueValid()
      requires Appended(q, last, db.queue, db.lastId, FramesInOrder(Cfg(), before), now, delays)
      requires NoRepeats(before) && InOriginOrder(before) && forall m :: m in before ==> m.from != node
      modifies db`queue, db`lastId
      ensures db.QueueValid()
      ensures Appended(q, last, db.queue, db.lastId, FramesInOrder(Cfg(), pushed), now, delays)
      ensures NoRepeats(pushed) && InOriginOrder(pushed)
      ensures forall m :: m in pushed <==>
                m in before || (m.id in db.messages && db.messages[m.id] == m && Selected(m, node, remote))
    {
      var msgs := db.GetMessagesAfterSeq(node, remote);
      PushList(msgs, now, delays, before, q, last);
      pushed := before + msgs;
      AppendNoRepeats(before, msgs, node);
    }

    method PushList(msgs: seq<Msg>, now: int, delays: int -> int, ghost before: seq<Msg>, ghost q: Queue, ghost last: int)
      requires db.QueueValid()
      requires Appended(q, last, db.queue, db.lastId, FramesInOrder(Cfg(), before), now, delays)
      modifies db`queue, db`lastId
      ensures db.QueueValid()
      ensures Appended(q, last, db.queue, db.lastId, FramesInOrder(Cfg(), before + msgs), now, delays)
    {
      assert before + msgs[..0] == before;
      for k := 0 to |msgs|
        invariant db.QueueValid()
        invariant Appended(q, last, db.queue, db.lastId, FramesInOrder(Cfg(), before + msgs[..k]), now, delays)
      {
        ghost var mid, lastMid := db.queue, db.lastId;
        QueueMessage(msgs[k], now, delays);
        ghost var frames := FramesInOrder(Cfg(), before + msgs[..k]);
        AppendedTwice(q, last, mid, lastMid, db.queue, db.lastId, frames, FramesFor(Cfg(), msgs[k]), now, delays);
        InOrderStep(Cfg(), before, msgs, k);
      }
      assert msgs[..|msgs|] == msgs;
    }

    /** handleReceivedFrame: dispatch on the kind of frame; a fragment the parser refuses is dropped. */
    method HandleReceivedFrame(f: Frame, now: int, delays: int -> int)
      requires Valid()
      modifies db, fragmenter, fragmenter.collectors.Values
      ensures Valid()
      ensures State() == Receive(Cfg(), old(State()), callsign, f)
      ensures KeepsSeenRows(old(db.seen), db.seen, now)
      ensures !f.SvecF? ==>
                Appended(old(db.queue), old(db.lastId), db.queue, db.lastId,
                         Forwards(Cfg(), callsign, Accepts(Cfg(), old(State()), f)), now, delays)
    {
      match f
      case MsgF(m) =>
        var shown := HandleMSG(m, now, delays);
      case FragF(g) =>
        if FragParses(g) {
          HandleFRAG(g, now, delays);
        }
      case SvecF(sender, vector) =>
        ghost var pushed := HandleSVEC(sender, vector, now, delays);
    }

    method BroadcastSVEC(now: int, delay: int)
      requires Valid()
      modifies db
      ensures Valid() && State() == BroadcastSvec(old(State()), callsign) && db.View() == old(db.View())
      ensures db.seen == old(db.seen)
      ensures Appended(old(db.queue), old(db.lastId), db.queue, db.lastId, [SvecF(callsign, Clock(db.messages))], now, Always(delay))
    {
      var clock := db.GetVectorClock();
      QueueFrame(SvecF(callsign, clock), now, Always(delay), 0, old(db.queue), old(db.lastId), []);
      assert [] + [SvecF(callsign, clock)] == [SvecF(callsign, clock)];
      AppendedUnsent(old(db.queue), old(db.lastId), db.queue, db.lastId, [SvecF(callsign, clock)], now, Always(delay));
    }

    /** Stores the message under the next number of this node and queues it. */
    method SendMessage(d: Draft, now: int, delays: int -> int) returns (r: Result<Msg, ()>)
      requires Valid()
      modifies db
      ensures Valid()
      ensures IsPost(r, old(State()), State(), d)
      ensures r.Err? <==> d.id in old(db.messages)
      ensures r.Ok? ==> IsDraft(r.value, d, callsign) && db.messages == old(db.messages)[d.id := r.value]
      ensures r.Ok? ==> r.value.seqNo.Some? && IsNextNumber(old(db.messages), callsign, r.value.seqNo.value)
      ensures db.seen == if r.Ok? then old(db.seen)[MsgKey(d.id) := SeenRow(now, false)] else old(db.seen)
      ensures Appended(old(db.queue), old(db.lastId), db.queue, db.lastId, if r.Ok? then FramesFor(Cfg(), r.value) else [], now, delays)
      ensures db.View() == if r.Ok? then Save(old(db.View()), r.value) else old(db.View())
    {
      ghost var before := old(State());
      r := NumberAndQueue(d, now, delays);
      PostIs(Cfg(), before, State(), callsign, d, r);
    }

    /** The outcome of a post, and the state it leaves: unchanged when it fails. */
    ghost predicate IsPost(r: Result<Msg, ()>, before: NodeState, after: NodeState, d: Draft) {
      var p := Post(Cfg(), before, callsign, d);
      && (r.Ok? <==> p.Ok?)
      && after == (if p.Ok? then p.value else before)
      && (r.Ok? ==> r.value == Compose(before, callsign, d))
    }

    /** The same, column by column. */
    method NumberAndQueue(d: Draft, now: int, delays: int -> int) returns (r: Result<Msg, ()>)
      requires db.Valid()
      modifies db
      ensures db.Valid()
      ensures r.Err? <==> d.id in old(db.messages)
      ensures r.Ok? ==> IsDraft(r.value, d, callsign) && r.value.seqNo == Some(NextSeq(old(db.messages), callsign))
      ensures r.Ok? ==> IsNextNumber(old(db.messages), callsign, r.value.seqNo.value)
      ensures db.messages == if r.Ok? then old(db.messages)[d.id := r.value] else old(db.messages)
      ensures db.seen == if r.Ok? then old(db.seen)[MsgKey(d.id) := SeenRow(now, false)] else old(db.seen)
      ensures Unsent(db.queue) == Unsent(old(db.queue)) + (if r.Ok? then FrameSet(Cfg(), r.value) else {})
      ensures Appended(old(db.queue), old(db.lastId), db.queue, db.lastId,
                       if r.Ok? then FramesFor(Cfg(), r.value) else [], now, delays)
      ensures db.View() == if r.Ok? then Save(old(db.View()), r.value) else old(db.View())
    {
      var seqNo := db.SaveMessageWithSeq(d, callsign);
      if seqNo.None? {
        return Err(());
      }
      var m := Msg(d.id, callsign, d.time, d.channel, d.replyTo, d.body, seqNo, d.author);
      Enqueue(m, now, delays);
      db.MarkSeen(MsgKey(d.id), false, now);
      return Ok(m);
    }

    /** One turn of the transmission loop; sendOk is the outcome of handing the frame to the modem. */
    method TransmitNext(now: int, sendOk: bool) returns (frame: Option<Frame>)
      requires Valid()
      modifies db`queue
      ensures Valid()
      ensures frame.None? ==> db.queue == old(db.queue) && forall id :: id in db.queue ==> !Due(db.queue, id, now)
      ensures frame.Some? ==>
                exists id :: IsNext(old(db.queue), id, now) && frame == Some(old(db.queue)[id].frame)
                  && db.queue == if sendOk then Succeed(Pick(old(db.queue), id), id)
                                 else Fail(Pick(old(db.queue), id), id, MAX_RETRIES, now)
      ensures frame.None? ==> State() == old(State())
      ensures frame.Some? ==>
                && frame.value in old(State()).queue
                && (State() == old(State()) || State() == DropFrame(old(State()), frame.value))
    {
      var item := db.GetNextTransmission(now);
      if item.None? {
        return None;
      }
      var id := item.value;
      frame := Some(db.queue[id].frame);
      if sendOk {
        db.MarkTransmitted(id);
      } else {
        db.MarkTransmissionFailed(id, MAX_RETRIES, now);
      }
      RowChangeUnsent(old(db.queue), db.queue, id);
    }

    /** One turn of the cleanup loop: only seen keys, finished queue rows and collectors can go, and no frame to be sent. */
    method Cleanup(now: int)
      requires Valid()
      modifies db, fragmenter
      ensures Valid() && db.View() == old(db.View())
      ensures db.queue == TransmissionQueue.Cleanup(old(db.queue), now)
      ensures State() == ExpireCollectors(Forget(old(State()), old(OldKeys(now))), old(OldCollectors(now)))
      ensures forall key :: key in db.seen <==> key in old(db.seen) && now <= old(db.seen)[key].seenAt + 3600
      ensures forall key :: key in db.seen ==> db.seen[key] == old(db.seen)[key]
      ensures forall id :: id in fragmenter.collectors <==>
                id in old(fragmenter.collectors) && now <= old(fragmenter.collectors)[id].firstSeen + 300
    {
      CleanDatabase(now);
      var expired := fragmenter.CleanupExpired(now);
      CleanupKeepsUnsent(old(db.queue), now);
      assert expired == old(OldCollectors(now));
      assert db.seen.Keys == old(db.seen).Keys - old(OldKeys(now));
    }

    /** The seen keys older than an hour. */
    ghost function OldKeys(now: int): set<SeenKey>
      reads db
    {
      set key | key in db.seen && db.seen[key].seenAt < now - 3600
    }

    ghost function OldCollectors(now: int): set<MsgId>
      reads fragmenter, fragmenter.collectors.Values
    {
      set id | id in fragmenter.collectors && fragmenter.collectors[id].IsExpired(now)
    }

    method CleanDatabase(now: int)
      requires db.Valid()
      modifies db
      ensures db.Valid() && db.View() == old(db.View())
      ensures db.queue == TransmissionQueue.Cleanup(old(db.queue), now)
      ensures forall key :: key in db.seen <==> key in old(db.seen) && old(db.seen)[key].seenAt >= now - 3600
      ensures forall key :: key in db.seen ==> db.seen[key] == old(db.seen)[key]
    {
      db.CleanupSeenCache(now, 3600);
      db.CleanupTransmissionQueue(now);
    }
  }

  /** The merged set of origins to check: those the clock lists, and our own others from 0. */
  method NodesToCheck(vector: Vector, ours: Vector) returns (merged: Vector)
    ensures IsMerge(vector, ours, merged)
  {
    merged := map[];
    var todo := vector.Keys;
    while todo != {}
      invariant todo <= vector.Keys
      invariant forall c :: c in merged <==> c in vector && c !in todo
      invariant forall c :: c in merged ==> merged[c] == vector[c]
      decreases |todo|
    {
      var node :| node in todo;
      merged := merged[node := vector[node]];
      todo := todo - {node};
    }
    todo := ours.Keys;
    while todo != {}
      invariant todo <= ours.Keys
      invariant forall c :: c in merged <==> c in vector || (c in ours && c !in todo)
      invariant forall c :: c in merged ==> merged[c] == if c in vector then vector[c] else 0
      decreases |todo|
    {
      var node :| node in todo;
      if node !in merged {
        merged := merged[node := 0];
      }
      todo := todo - {node};
    }
  }

  ghost predicate IsMerge(vector: Vector, ours: Vector, merged: Vector) {
    && (forall c :: c in merged <==> c in vector || c in ours)
    && forall c :: c in merged ==> merged[c] == if c in vector then vector[c] else 0
  }

  /** What one checked origin contributes to the missing rows. */
  lemma MissingOf(messages: Store, sender: Callsign, vector: Vector, merged: Vector, m: Msg)
    requires IsMerge(vector, Clock(messages), merged)
    requires forall id :: id in messages ==> messages[id].id == id
    ensures m in Missing(messages, sender, vector) <==>
              m.from != sender && m.from in merged
              && m.id in messages && messages[m.id] == m && Selected(m, m.from, merged[m.from])
  {
  }
}
