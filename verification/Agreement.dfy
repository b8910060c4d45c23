/** What holds in every reachable state, read off the invariant. */
module Agreement {
  import opened Messages
  import opened VectorClock
  import opened Fragmentation
  import opened Node
  import opened Gossip

  /** Every stored row is a row of its origin's own table. */
  lemma RowsComeFromOrigin(cfg: Config, s: Net, c: Callsign, id: MsgId)
    requires Reachable(cfg, s) && c in s.nodes && id in s.nodes[c].store
    ensures var m := s.nodes[c].store[id];
            m.from in s.nodes && id in s.nodes[m.from].store && s.nodes[m.from].store[id] == m
  {
    ReachableInv(cfg, s);
    assert NodeOk(cfg, s.posted, c, s.nodes[c]);
    assert PostOk(cfg, s.nodes.Keys, s.posted, id);
    var o := s.posted[id].from;
    assert NodeOk(cfg, s.posted, o, s.nodes[o]);
  }

  /** No two nodes disagree about an id, or about a pair (from_node, seq). */
  lemma NodesAgree(cfg: Config, s: Net, a: Callsign, b: Callsign, i: MsgId, j: MsgId)
    requires Reachable(cfg, s) && a in s.nodes && b in s.nodes && i in s.nodes[a].store && j in s.nodes[b].store
    ensures var x := s.nodes[a].store[i];
            var y := s.nodes[b].store[j];
            i == j || (x.from == y.from && x.seqNo == y.seqNo) <==> x == y
  {
    ReachableInv(cfg, s);
    assert NodeOk(cfg, s.posted, a, s.nodes[a]);
    assert NodeOk(cfg, s.posted, b, s.nodes[b]);
    assert PostOk(cfg, s.nodes.Keys, s.posted, i);
    assert PostOk(cfg, s.nodes.Keys, s.posted, j);
    assert SlotsDiffer(s.posted, i, j);
  }

  /** An origin's own table numbers its messages 1, 2, ..., k without a gap, and the next one is k + 1. */
  lemma OwnMessagesAreNumbered(cfg: Config, s: Net, c: Callsign)
    requires Reachable(cfg, s) && c in s.nodes
    ensures var seqs := SeqsOf(s.nodes[c].store, c);
            var k := NextSeq(s.nodes[c].store, c) - 1;
            k >= 0 && forall i :: i in seqs <==> 1 <= i <= k
  {
    ReachableInv(cfg, s);
    OwnSeqs(cfg, s, c);
    NextSeqIsFresh(cfg, s, c);
    assert Gapless(SeqsOf(s.posted, c));
  }

  /** The content of a frame: the table row it carries, whole or in part, or a clock its sender has reached. */
  ghost predicate Genuine(cfg: Config, s: Net, f: Frame) {
    match f
    case MsgF(m) => m.from in s.nodes && m.id in s.nodes[m.from].store && s.nodes[m.from].store[m.id] == m
    case FragF(g) =>
      exists o :: o in s.nodes && g.id in s.nodes[o].store && s.nodes[o].store[g.id].from == o
                  && g in FragmentsOf(s.nodes[o].store[g.id], cfg.threshold, cfg.codec)
    case SvecF(c, vector) => c in s.nodes && forall o :: o in vector ==> 1 <= vector[o] <= ClockAt(s.nodes[c].store, o)
  }

  /** Every frame in the air or in a queue, however old, is genuine: clocks in flight never promise too much. */
  lemma FramesAreGenuine(cfg: Config, s: Net, f: Frame)
    requires Reachable(cfg, s)
    requires f in s.air || exists c :: c in s.nodes && f in s.nodes[c].queue
    ensures Genuine(cfg, s, f)
  {
    ReachableInv(cfg, s);
    assert FrameOk(cfg, s, f) by {
      if f in s.air {
        assert QueueOk(cfg, s, s.air);
      } else {
        var c :| c in s.nodes && f in s.nodes[c].queue;
        assert QueueOk(cfg, s, s.nodes[c].queue);
      }
    }
    if f.MsgF? || f.FragF? {
      var id := if f.MsgF? then f.msg.id else f.frag.id;
      assert PostOk(cfg, s.nodes.Keys, s.posted, id);
      var o := s.posted[id].from;
      assert NodeOk(cfg, s.posted, o, s.nodes[o]);
    }
  }

  /** A message id in the seen cache is the id of a stored row, so dropping a seen message loses nothing. */
  lemma SeenIsStored(cfg: Config, s: Net, c: Callsign, id: MsgId)
    requires Reachable(cfg, s) && c in s.nodes && MsgKey(id) in s.nodes[c].seen
    ensures id in s.nodes[c].store
  {
    ReachableInv(cfg, s);
    assert NodeOk(cfg, s.posted, c, s.nodes[c]);
  }
}
