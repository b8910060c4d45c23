/** The frames of a run survive their queue rows and the wire: the text and value layers under the gossip layer. */
module Rows {
  import opened Wrappers
  import opened Messages
  import opened VectorClock
  import opened Node
  import opened Gossip
  import opened Text
  import opened Frames
  import opened Parser

  /** What clients and operators must respect: valid channels, 32-bit times and numbers, comma-free callsigns. */
  ghost predicate WellFormed(tt: TimeText, s: Net) {
    && (forall id :: id in s.posted ==> PostWellFormed(tt, s.posted[id]))
    && (forall c :: c in s.nodes ==> c != "" && ',' !in c)
  }

  ghost predicate PostWellFormed(tt: TimeText, m: Msg) {
    && ValidChannel(m.channel) && ReadsBack(tt, m.time) && FitsUint32(m.time)
    && m.seqNo.Some? && 1 <= m.seqNo.value < TWO_32
  }

  /** The frame that the transmission loop reads back from the row of a queued frame. */
  ghost predicate RowReadsBack(tt: TimeText, f: Frame) {
    match f
    case MsgF(m) => MsgFromDict(MsgToDict(m, tt), tt) == Some(m)
    case FragF(g) => FragFromDict(FragToDict(g)) == Some(g)
    case SvecF(c, vector) => forall keys :: IsListing(keys, vector) ==> SvecFromText(SvecText(c, vector, keys)) == Some((c, vector))
  }

  /** A clock in flight names only nodes, with 32-bit numbers. */
  lemma VectorWellFormed(cfg: Config, tt: TimeText, s: Net, c: Callsign, vector: Vector)
    requires Inv(cfg, s) && WellFormed(tt, s) && FrameOk(cfg, s, SvecF(c, vector))
    ensures forall k :: k in vector ==> k in s.nodes && 1 <= vector[k] < TWO_32
  {
    var store := s.nodes[c].store;
    assert NodeOk(cfg, s.posted, c, s.nodes[c]);
    forall k | k in vector
      ensures k in s.nodes && 1 <= vector[k] < TWO_32
    {
      assert ClockAt(store, k) in SeqsOf(store, k);
      var id :| id in store && store[id].from == k && store[id].seqNo == Some(ClockAt(store, k));
      assert PostOk(cfg, s.nodes.Keys, s.posted, id);
      assert PostWellFormed(tt, s.posted[id]);
    }
  }

  /** Every frame the daemon queues, in every run, is read back from its row as the frame it came from. */
  lemma QueuedFramesReadBack(cfg: Config, tt: TimeText, s: Net, c: Callsign, f: Frame)
    requires Reachable(cfg, s) && WellFormed(tt, s) && c in s.nodes && f in s.nodes[c].queue
    requires f.FragF? ==> IsInt(f.frag.total)
    ensures RowReadsBack(tt, f)
  {
    ReachableInv(cfg, s);
    assert QueueOk(cfg, s, s.nodes[c].queue);
    assert FrameOk(cfg, s, f);
    match f
    case MsgF(m) =>
      assert PostWellFormed(tt, s.posted[m.id]);
      MsgRowUndoIff(m, tt);
    case FragF(g) =>
      FragRowUndoIff(g);
    case SvecF(sender, vector) =>
      VectorWellFormed(cfg, tt, s, sender, vector);
      forall keys | IsListing(keys, vector)
        ensures SvecFromText(SvecText(sender, vector, keys)) == Some((sender, vector))
      {
        SvecRowUndoIff(sender, vector, keys);
      }
  }

  /** Every such frame also survives the wire, except the fragments of a post that does not fit. */
  lemma SentFramesArriveAsSent(cfg: Config, tt: TimeText, s: Net, f: Frame)
    requires Reachable(cfg, s) && WellFormed(tt, s) && f in s.air
    ensures f.FragF? ==> f.frag.id in s.posted
    ensures FromPb(ToPb(f)) == Some(f) <==> (f.FragF? ==> Fits(cfg, s.posted[f.frag.id]))
  {
    ReachableInv(cfg, s);
    assert QueueOk(cfg, s, s.air);
    assert FrameOk(cfg, s, f);
    WireIff(f);
    match f
    case MsgF(m) =>
      assert PostWellFormed(tt, s.posted[m.id]);
    case FragF(g) =>
    case SvecF(sender, vector) =>
      VectorWellFormed(cfg, tt, s, sender, vector);
  }
}
