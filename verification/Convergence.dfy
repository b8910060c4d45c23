/** When can all tables become equal, and how far they are from it. */
module Convergence {
  import opened Wrappers
  import opened Messages
  import opened VectorClock
  import opened Fragmentation
  import opened Node
  import opened Gossip
  import opened Sync

  ghost predicate Converged(s: Net) {
    forall c :: c in s.nodes ==> s.nodes[c].store == s.posted
  }

  // ---- equal clocks and equal tables ----

  /** How many of an origin's posts lie beyond a node's contiguous prefix. */
  ghost function Gap(s: Net, c: Callsign, origin: Callsign): int
    requires c in s.nodes
  {
    ClockAt(s.posted, origin) - ClockAt(s.nodes[c].store, origin)
  }

  lemma GapNonNegative(cfg: Config, s: Net, c: Callsign, origin: Callsign)
    requires Inv(cfg, s) && c in s.nodes
    ensures Gap(s, c, origin) >= 0
    ensures c == origin ==> Gap(s, c, origin) == 0
  {
    assert NodeOk(cfg, s.posted, c, s.nodes[c]);
    ClockMonotone(s.nodes[c].store, s.posted, origin);
    if c == origin {
      OwnSeqs(cfg, s, c);
    }
  }

  /** A node whose prefix for an origin is full holds every post of that origin. */
  lemma NoGapHoldsAll(cfg: Config, s: Net, c: Callsign, id: MsgId)
    requires Inv(cfg, s) && c in s.nodes && id in s.posted
    requires Gap(s, c, s.posted[id].from) == 0
    ensures id in s.nodes[c].store
  {
    var m := s.posted[id];
    var mine := s.nodes[c].store;
    assert NodeOk(cfg, s.posted, c, s.nodes[c]);
    assert PostOk(cfg, s.nodes.Keys, s.posted, id);
    assert m.seqNo.value in SeqsOf(s.posted, m.from);
    assert Gapless(SeqsOf(s.posted, m.from));
    assert m.seqNo.value in SeqsOf(mine, m.from);
    SameSlot(cfg, s, s.posted, mine, id);
  }

  /** No gaps anywhere is convergence. */
  lemma ConvergedIffNoGap(cfg: Config, s: Net)
    requires Inv(cfg, s)
    ensures Converged(s) <==> forall c, o :: c in s.nodes && o in s.nodes ==> Gap(s, c, o) == 0
  {
    if forall c, o :: c in s.nodes && o in s.nodes ==> Gap(s, c, o) == 0 {
      forall c | c in s.nodes
        ensures s.nodes[c].store == s.posted
      {
        assert NodeOk(cfg, s.posted, c, s.nodes[c]);
        forall id | id in s.posted
          ensures id in s.nodes[c].store
        {
          assert PostOk(cfg, s.nodes.Keys, s.posted, id);
          NoGapHoldsAll(cfg, s, c, id);
        }
      }
    }
  }

  /** Equal clocks are equal tables, because every origin takes part and its own clock is full. */
  lemma EqualClocksIffEqualTables(cfg: Config, s: Net)
    requires Inv(cfg, s)
    ensures (forall a, b :: a in s.nodes && b in s.nodes ==> Clock(s.nodes[a].store) == Clock(s.nodes[b].store))
        <==> Converged(s)
  {
    if forall a, b :: a in s.nodes && b in s.nodes ==> Clock(s.nodes[a].store) == Clock(s.nodes[b].store) {
      forall c, o | c in s.nodes && o in s.nodes
        ensures Gap(s, c, o) == 0
      {
        assert Clock(s.nodes[c].store) == Clock(s.nodes[o].store);
        ClockEntries(s.nodes[c].store, o);
        ClockEntries(s.nodes[o].store, o);
        GapNonNegative(cfg, s, o, o);
      }
      ConvergedIffNoGap(cfg, s);
    }
  }

  // ---- when clocks are answered with nothing ----

  /** What a clock covers is not pushed, and nothing of the asker's own. */
  lemma CoveredIsNotPushed(store: Store, sender: Callsign, vector: Vector, m: Msg)
    requires m in Missing(store, sender, vector)
    ensures m.from != sender && m.seqNo.Some?
    ensures m.seqNo.value > if m.from in vector then vector[m.from] else 0
  {
  }

  ghost predicate IsSilent(s: Net, a: Callsign, b: Callsign)
    requires a in s.nodes && b in s.nodes
  {
    Missing(s.nodes[a].store, b, Clock(s.nodes[b].store)) == {}
  }

  lemma UpToDateMeetsSilence(cfg: Config, s: Net, a: Callsign, b: Callsign)
    requires Inv(cfg, s) && a in s.nodes && b in s.nodes
    requires forall o :: o in s.nodes ==> Gap(s, b, o) == 0
    ensures IsSilent(s, a, b)
  {
    var store, vector := s.nodes[a].store, Clock(s.nodes[b].store);
    assert NodeOk(cfg, s.posted, a, s.nodes[a]);
    forall m | m in Missing(store, b, vector)
      ensures false
    {
      CoveredIsNotPushed(store, b, vector, m);
      var id :| id in store && store[id] == m;
      assert PostOk(cfg, s.nodes.Keys, s.posted, id);
      assert Gap(s, b, m.from) == 0 && Gapless(SeqsOf(s.posted, m.from));
      assert m.seqNo.value in SeqsOf(s.posted, m.from);
      ClockEntries(s.nodes[b].store, m.from);
    }
  }

  lemma BehindIsAnswered(cfg: Config, s: Net, b: Callsign, o: Callsign)
    requires Inv(cfg, s) && b in s.nodes && o in s.nodes && Gap(s, b, o) != 0
    ensures !IsSilent(s, o, b)
  {
    GapNonNegative(cfg, s, b, o);
    var store, vector := s.nodes[o].store, Clock(s.nodes[b].store);
    var n := ClockAt(s.nodes[b].store, o) + 1;
    OwnSeqs(cfg, s, o);
    assert n in SeqsOf(s.posted, o) && n in SeqsOf(store, o);
    var id :| id in store && store[id].from == o && store[id].seqNo.Some? && store[id].seqNo.value == n;
    ClockEntries(store, o);
    ClockEntries(s.nodes[b].store, o);
    assert store[id] in Missing(store, b, vector);
  }

  /**
    * The exchange comes to rest: the current clock of a node is answered with nothing by every node if and
    * only if the node has every post of every origin in its prefix.
    */
  lemma SilenceIffUpToDate(cfg: Config, s: Net, b: Callsign)
    requires Inv(cfg, s) && b in s.nodes
    ensures (forall a :: a in s.nodes ==> IsSilent(s, a, b)) <==> forall o :: o in s.nodes ==> Gap(s, b, o) == 0
  {
    if forall o :: o in s.nodes ==> Gap(s, b, o) == 0 {
      forall a | a in s.nodes
        ensures IsSilent(s, a, b)
      {
        UpToDateMeetsSilence(cfg, s, a, b);
      }
    } else {
      var o :| o in s.nodes && Gap(s, b, o) != 0;
      BehindIsAnswered(cfg, s, b, o);
    }
  }

  /** So in a converged network no current clock makes any node queue anything. */
  lemma ConvergedIsQuiet(cfg: Config, s: Net, a: Callsign, b: Callsign)
    requires Inv(cfg, s) && Converged(s) && a in s.nodes && b in s.nodes
    ensures HandleSvec(cfg, s.nodes[a], b, Clock(s.nodes[b].store)).queue == s.nodes[a].queue
  {
    ConvergedIffNoGap(cfg, s);
    UpToDateMeetsSilence(cfg, s, a, b);
    assert FramesForAll(cfg, {}) == {};
  }

  // ---- the measure ----

  type Pairs = seq<(Callsign, Callsign)>

  ghost predicate PairsOf(s: Net, pairs: Pairs) {
    forall p :: p in pairs ==> p.0 in s.nodes && p.1 in s.nodes
  }

  /** The listed pairs are all pairs of nodes. */
  ghost predicate AllPairs(s: Net, pairs: Pairs) {
    PairsOf(s, pairs) && forall c, o :: c in s.nodes && o in s.nodes ==> (c, o) in pairs
  }

  /** The total number of messages beyond the prefixes, over the listed (node, origin) pairs. */
  ghost function Deficit(s: Net, pairs: Pairs): int
    requires PairsOf(s, pairs)
  {
    if pairs == [] then 0
    else
      assert pairs[0] in pairs;
      Gap(s, pairs[0].0, pairs[0].1) + Deficit(s, pairs[1..])
  }

  lemma GapFalls(cfg: Config, s: Net, t: Net, c: Callsign, o: Callsign)
    requires Inv(cfg, s) && Inv(cfg, t) && Grows(s, t) && s.posted == t.posted && c in s.nodes
    ensures 0 <= Gap(t, c, o) <= Gap(s, c, o)
  {
    ClockMonotone(s.nodes[c].store, t.nodes[c].store, o);
    GapNonNegative(cfg, t, c, o);
  }

  /** Without posts the measure never rises; it falls as soon as one gap does. */
  lemma {:induction false} DeficitFalls(cfg: Config, s: Net, t: Net, pairs: Pairs)
    requires Inv(cfg, s) && Inv(cfg, t) && Grows(s, t) && s.posted == t.posted && PairsOf(s, pairs)
    ensures 0 <= Deficit(t, pairs) <= Deficit(s, pairs)
    ensures (exists p :: p in pairs && Gap(t, p.0, p.1) < Gap(s, p.0, p.1)) ==> Deficit(t, pairs) < Deficit(s, pairs)
  {
    if pairs != [] {
      assert pairs[0] in pairs;
      assert forall p :: p in pairs ==> p == pairs[0] || p in pairs[1..];
      GapFalls(cfg, s, t, pairs[0].0, pairs[0].1);
      DeficitFalls(cfg, s, t, pairs[1..]);
    }
  }

  /** Over any run without posts the measure never rises. */
  lemma RunNeverRaisesDeficit(cfg: Config, s: Net, acts: seq<Action>, pairs: Pairs)
    requires Inv(cfg, s) && Valid(cfg, s, acts) && NoPosts(acts) && PairsOf(s, pairs)
    ensures PairsOf(Exec(cfg, s, acts), pairs)
    ensures 0 <= Deficit(Exec(cfg, s, acts), pairs) <= Deficit(s, pairs)
  {
    ExecKeepsInv(cfg, s, acts);
    NoPostsKeepHistory(cfg, s, acts);
    DeficitFalls(cfg, s, Exec(cfg, s, acts), pairs);
  }

  lemma {:induction false} DeficitMember(cfg: Config, s: Net, pairs: Pairs, p: (Callsign, Callsign))
    requires Inv(cfg, s) && PairsOf(s, pairs) && p in pairs
    ensures 0 <= Gap(s, p.0, p.1) <= Deficit(s, pairs)
  {
    assert pairs[0] in pairs;
    GapNonNegative(cfg, s, pairs[0].0, pairs[0].1);
    DeficitFalls(cfg, s, s, pairs[1..]);
    if p != pairs[0] {
      assert p in pairs[1..];
      DeficitMember(cfg, s, pairs[1..], p);
    }
  }

  lemma {:induction false} NoGapNoDeficit(cfg: Config, s: Net, pairs: Pairs)
    requires PairsOf(s, pairs)
    requires forall p :: p in pairs ==> Gap(s, p.0, p.1) == 0
    ensures Deficit(s, pairs) == 0
  {
    if pairs != [] {
      assert pairs[0] in pairs;
      assert forall p :: p in pairs[1..] ==> p in pairs;
      NoGapNoDeficit(cfg, s, pairs[1..]);
    }
  }

  /** The measure over all pairs is zero exactly at convergence. */
  lemma ZeroDeficitIffConverged(cfg: Config, s: Net, pairs: Pairs)
    requires Inv(cfg, s) && AllPairs(s, pairs)
    ensures Deficit(s, pairs) == 0 <==> Converged(s)
  {
    ConvergedIffNoGap(cfg, s);
    if Deficit(s, pairs) == 0 {
      forall c, o | c in s.nodes && o in s.nodes
        ensures Gap(s, c, o) == 0
      {
        DeficitMember(cfg, s, pairs, (c, o));
      }
    } else if Converged(s) {
      NoGapNoDeficit(cfg, s, pairs);
    }
  }

  // ---- every run that serves a pair closes its gap ----

  /** After a first part of a run, `o` handles a clock of c, and the window that follows brings the answer to c. */
  ghost predicate Serves(cfg: Config, s: Net, before: seq<Action>, vector: Vector, window: seq<Action>,
                         c: Callsign, o: Callsign, k: nat)
  {
    && Valid(cfg, s, before)
    && var t := Exec(cfg, s, before);
    && c in t.nodes && o in t.nodes
    && AnswerReaches(cfg, t.nodes[o].store, vector, t, window, c, o, k)
  }

  ghost predicate ServesWithin(cfg: Config, s: Net, acts: seq<Action>, before: seq<Action>, vector: Vector,
                               window: seq<Action>, rest: seq<Action>, c: Callsign, o: Callsign, k: nat)
  {
    Serves(cfg, s, before, vector, window, c, o, k) && acts == before + (([Deliver(o, SvecF(c, vector))] + window) + rest)
  }

  /**
    * Somewhere in the run `o` handles a clock of c, old or new, and its first k messages then reach c.
    * The conditions on c hold for that window only: what happens before and after it is arbitrary.
    */
  ghost predicate ServedUpTo(cfg: Config, s: Net, acts: seq<Action>, c: Callsign, o: Callsign, k: nat) {
    exists before, vector, window, rest :: ServesWithin(cfg, s, acts, before, vector, window, rest, c, o, k)
  }

  /** The handling of the clock itself changes nothing about what the window delivers. */
  lemma ReachesLater(cfg: Config, store: Store, vector: Vector, s: Net, acts: seq<Action>, c: Callsign, o: Callsign, k: nat)
    requires c in s.nodes && AnswerReaches(cfg, store, vector, s, acts, c, o, k)
    ensures AnswerReaches(cfg, store, vector, s, [Deliver(o, SvecF(c, vector))] + acts, c, o, k)
  {
    var all := [Deliver(o, SvecF(c, vector))] + acts;
    assert forall a :: a in all <==> a == Deliver(o, SvecF(c, vector)) || a in acts;
    forall id | id in store && InFirst(store, o, k, id) && store[id] in Missing(store, c, vector)
      ensures Reaches(cfg, s, all, c, store[id])
    {
      assert Reaches(cfg, s, acts, c, store[id]);
    }
  }

  /** The window, run on its own. */
  lemma WindowReaches(cfg: Config, t: Net, vector: Vector, window: seq<Action>, c: Callsign, o: Callsign, k: nat)
    requires Inv(cfg, t) && c in t.nodes && o in t.nodes && k <= ClockAt(t.posted, o)
    requires Valid(cfg, t, [Deliver(o, SvecF(c, vector))] + window)
    requires AnswerReaches(cfg, t.nodes[o].store, vector, t, window, c, o, k)
    ensures var u := Exec(cfg, t, [Deliver(o, SvecF(c, vector))] + window);
            c in u.nodes && k <= ClockAt(u.nodes[c].store, o)
  {
    var answer := [Deliver(o, SvecF(c, vector))] + window;
    assert answer[0] == Deliver(o, SvecF(c, vector));
    assert SvecF(c, vector) in t.air;
    OwnSeqs(cfg, t, o);
    ReachesLater(cfg, t.nodes[o].store, vector, t, window, c, o, k);
    SyncRound(cfg, t, o, c, vector, t, answer, o, k);
  }

  /**
    * In every run, posts, restarts and expiry included, that serves c with the first k messages of o,
    * the clock of c for o ends at k or more.
    */
  lemma ServedRunReaches(cfg: Config, s: Net, acts: seq<Action>, c: Callsign, o: Callsign, k: nat)
    requires Inv(cfg, s) && Valid(cfg, s, acts) && c in s.nodes && o in s.nodes
    requires k <= ClockAt(s.posted, o) && ServedUpTo(cfg, s, acts, c, o, k)
    ensures c in Exec(cfg, s, acts).nodes && k <= ClockAt(Exec(cfg, s, acts).nodes[c].store, o)
  {
    var before, vector, window, rest :| ServesWithin(cfg, s, acts, before, vector, window, rest, c, o, k);
    var answer := [Deliver(o, SvecF(c, vector))] + window;
    ExecSplit(cfg, s, before, answer + rest);
    var t := Exec(cfg, s, before);
    ExecSplit(cfg, t, answer, rest);
    var u := Exec(cfg, t, answer);
    ExecKeepsInv(cfg, s, before);
    ClockMonotone(s.posted, t.posted, o);
    WindowReaches(cfg, t, vector, window, c, o, k);
    ExecKeepsInv(cfg, t, answer);
    ExecKeepsInv(cfg, u, rest);
    ClockMonotone(u.nodes[c].store, Exec(cfg, u, rest).nodes[c].store, o);
  }

  /** Every pair of nodes is served, each up to all that the origin had posted at the start. */
  ghost predicate AllServed(cfg: Config, s: Net, acts: seq<Action>) {
    forall c, o :: c in s.nodes && o in s.nodes && c != o ==> ServedUpTo(cfg, s, acts, c, o, ClockAt(s.posted, o))
  }

  lemma ServedRunBrings(cfg: Config, s: Net, acts: seq<Action>, c: Callsign, id: MsgId)
    requires Inv(cfg, s) && Valid(cfg, s, acts) && AllServed(cfg, s, acts) && c in s.nodes && id in s.posted
    ensures c in Exec(cfg, s, acts).nodes
    ensures var store := Exec(cfg, s, acts).nodes[c].store;
            id in store && store[id] == s.posted[id]
  {
    var t := Exec(cfg, s, acts);
    var m := s.posted[id];
    ExecKeepsInv(cfg, s, acts);
    assert PostOk(cfg, s.nodes.Keys, s.posted, id);
    assert NodeOk(cfg, s.posted, c, s.nodes[c]);
    assert NodeOk(cfg, t.posted, c, t.nodes[c]);
    if m.from != c {
      ServedRunReaches(cfg, s, acts, c, m.from, ClockAt(s.posted, m.from));
      assert m.seqNo.value in SeqsOf(s.posted, m.from);
      assert Gapless(SeqsOf(s.posted, m.from));
      assert m.seqNo.value in SeqsOf(t.nodes[c].store, m.from);
      SameSlot(cfg, t, s.posted, t.nodes[c].store, id);
    }
  }

  /**
    * Every run that serves all pairs brings every message that was posted before it to every node, whatever
    * else happens: new posts, restarts and expiry anywhere outside a pair's own window, in any interleaving.
    */
  lemma ServedRunDeliversAll(cfg: Config, s: Net, acts: seq<Action>)
    requires Inv(cfg, s) && Valid(cfg, s, acts) && AllServed(cfg, s, acts)
    ensures var t := Exec(cfg, s, acts);
            forall c :: c in t.nodes ==> SubStore(s.posted, t.nodes[c].store)
  {
    ExecKeepsInv(cfg, s, acts);
    var t := Exec(cfg, s, acts);
    forall c, id | c in t.nodes && id in s.posted
      ensures id in t.nodes[c].store && t.nodes[c].store[id] == s.posted[id]
    {
      ServedRunBrings(cfg, s, acts, c, id);
    }
  }

  /** Without posts such a run ends with all tables equal. */
  lemma ServedRunConverges(cfg: Config, s: Net, acts: seq<Action>)
    requires Inv(cfg, s) && Valid(cfg, s, acts) && NoPosts(acts) && AllServed(cfg, s, acts)
    ensures Converged(Exec(cfg, s, acts))
  {
    var t := Exec(cfg, s, acts);
    ExecKeepsInv(cfg, s, acts);
    NoPostsKeepHistory(cfg, s, acts);
    ServedRunDeliversAll(cfg, s, acts);
    forall c | c in t.nodes
      ensures t.nodes[c].store == t.posted
    {
      assert NodeOk(cfg, t.posted, c, t.nodes[c]);
    }
  }

  // ---- what a node can obtain ----

  /** The node has the message, or could collect it: it fits and is not blocked there. */
  ghost predicate Gettable(cfg: Config, n: NodeState, m: Msg) {
    m.id in n.store || (Fits(cfg, m) && !Blocked(cfg, n, m))
  }

  ghost function GettableSeqs(cfg: Config, n: NodeState, store: Store, o: Callsign): set<int> {
    set id | id in store && store[id].from == o && store[id].seqNo.Some? && Gettable(cfg, n, store[id]) :: store[id].seqNo.value
  }

  /** The messages of an origin before the first that the node can not get. */
  ghost function Obtainable(cfg: Config, n: NodeState, store: Store, o: Callsign): nat {
    Prefix(GettableSeqs(cfg, n, store, o))
  }

  lemma GettableWhere(cfg: Config, n: NodeState, store: Store, o: Callsign, i: int) returns (id: MsgId)
    requires i in GettableSeqs(cfg, n, store, o)
    ensures id in store && store[id].from == o && store[id].seqNo == Some(i) && Gettable(cfg, n, store[id])
  {
    id :| id in store && store[id].from == o && store[id].seqNo.Some? && Gettable(cfg, n, store[id]) && store[id].seqNo.value == i;
  }

  /** Of its own posts an origin offers what the history offers. */
  lemma OwnTableOffersAll(cfg: Config, s: Net, n: NodeState, o: Callsign)
    requires Inv(cfg, s) && o in s.nodes
    ensures Obtainable(cfg, n, s.nodes[o].store, o) == Obtainable(cfg, n, s.posted, o)
  {
    assert NodeOk(cfg, s.posted, o, s.nodes[o]);
    var a, b := GettableSeqs(cfg, n, s.nodes[o].store, o), GettableSeqs(cfg, n, s.posted, o);
    forall i | i in a
      ensures i in b
    {
      var id := GettableWhere(cfg, n, s.nodes[o].store, o, i);
      assert s.posted[id] == s.nodes[o].store[id];
    }
    forall i | i in b
      ensures i in a
    {
      var id := GettableWhere(cfg, n, s.posted, o, i);
      assert s.posted[id] == s.nodes[o].store[id];
    }
    assert a == b;
  }

  lemma ObtainableIsAtMost(cfg: Config, n: NodeState, store: Store, o: Callsign)
    ensures Obtainable(cfg, n, store, o) <= ClockAt(store, o)
  {
    var a, b := GettableSeqs(cfg, n, store, o), SeqsOf(store, o);
    forall i | i in a
      ensures i in b
    {
      var id := GettableWhere(cfg, n, store, o, i);
    }
    PrefixMonotone(a, b);
  }

  /** A row among the obtainable ones is gettable. */
  lemma ObtainableRow(cfg: Config, s: Net, n: NodeState, store: Store, o: Callsign, id: MsgId)
    requires PostedOk(cfg, s.nodes.Keys, s.posted) && SubStore(store, s.posted)
    requires id in store && InFirst(store, o, Obtainable(cfg, n, store, o), id)
    ensures Gettable(cfg, n, store[id])
  {
    var other := GettableWhere(cfg, n, store, o, store[id].seqNo.value);
    assert SlotsDiffer(s.posted, id, other);
  }

  /** In a calm run what was gettable stays gettable. */
  lemma {:induction false} RunKeepsGettable(cfg: Config, s: Net, acts: seq<Action>, c: Callsign, m: Msg)
    requires Inv(cfg, s) && Valid(cfg, s, acts) && Calm(acts) && c in s.nodes
    requires m.id in s.posted && s.posted[m.id] == m && Gettable(cfg, s.nodes[c], m)
    ensures c in Exec(cfg, s, acts).nodes && Gettable(cfg, Exec(cfg, s, acts).nodes[c], m)
    decreases |acts|
  {
    if acts != [] {
      assert acts[0] in acts && forall b :: b in acts[1..] ==> b in acts;
      StepKeepsInv(cfg, s, acts[0]);
      if m.id !in s.nodes[c].store {
        BlocksIff(cfg, s, acts[0], c, m);
      }
      RunKeepsGettable(cfg, Step(cfg, s, acts[0]), acts[1..], c, m);
    }
  }

  lemma RunKeepsObtainable(cfg: Config, s: Net, acts: seq<Action>, c: Callsign, store: Store, o: Callsign)
    requires Inv(cfg, s) && Valid(cfg, s, acts) && Calm(acts) && c in s.nodes && SubStore(store, s.posted)
    ensures c in Exec(cfg, s, acts).nodes
    ensures Obtainable(cfg, s.nodes[c], store, o) <= Obtainable(cfg, Exec(cfg, s, acts).nodes[c], store, o)
  {
    ExecKeepsInv(cfg, s, acts);
    var t := Exec(cfg, s, acts);
    var a, b := GettableSeqs(cfg, s.nodes[c], store, o), GettableSeqs(cfg, t.nodes[c], store, o);
    forall i | i in a
      ensures i in b
    {
      var id := GettableWhere(cfg, s.nodes[c], store, o, i);
      assert PostOk(cfg, s.nodes.Keys, s.posted, id);
      RunKeepsGettable(cfg, s, acts, c, store[id]);
    }
    PrefixMonotone(a, b);
  }

  // ---- an exchange ----

  lemma {:induction false} ListOf<T>(items: set<T>) returns (list: seq<T>)
    ensures forall x :: x in list <==> x in items
    decreases |items|
  {
    list := [];
    if items != {} {
      var x :| x in items;
      var rest := ListOf(items - {x});
      list := [x] + rest;
    }
  }

  ghost function Transmits(me: Callsign, fs: seq<Frame>): seq<Action> {
    if fs == [] then [] else [Transmit(me, fs[0])] + Transmits(me, fs[1..])
  }

  /** Sending queued frames puts them in the air and changes nothing else. */
  lemma {:induction false} TransmitsRun(cfg: Config, s: Net, me: Callsign, fs: seq<Frame>)
    requires me in s.nodes && forall f :: f in fs ==> f in s.nodes[me].queue
    ensures var acts := Transmits(me, fs);
            && Valid(cfg, s, acts) && Quiet(acts)
            && Exec(cfg, s, acts).nodes == s.nodes
            && (forall f :: f in fs ==> f in Exec(cfg, s, acts).air) && s.air <= Exec(cfg, s, acts).air
    decreases |fs|
  {
    if fs != [] {
      var t := Step(cfg, s, Transmit(me, fs[0]));
      assert t.nodes == s.nodes;
      TransmitsRun(cfg, t, me, fs[1..]);
      assert fs == [fs[0]] + fs[1..];
    }
  }

  /** The first half of an exchange: the clock of `me` is broadcast, sent and handled by `far`. */
  ghost function Ask(s: Net, me: Callsign, far: Callsign): seq<Action>
    requires me in s.nodes
  {
    var clock := SvecF(me, Clock(s.nodes[me].store));
    [Broadcast(me), Transmit(me, clock), Deliver(far, clock)]
  }

  lemma AskRun(cfg: Config, s: Net, me: Callsign, far: Callsign)
    requires Inv(cfg, s) && me in s.nodes && far in s.nodes
    ensures var acts := Ask(s, me, far);
            var vector := Clock(s.nodes[me].store);
            && Valid(cfg, s, acts) && Quiet(acts)
            && var t := Exec(cfg, s, acts);
            && t.nodes.Keys == s.nodes.Keys
            && SvecF(me, vector) in t.air
            && t.nodes[far].store == s.nodes[far].store
            && FramesForAll(cfg, Missing(t.nodes[far].store, me, vector)) <= t.nodes[far].queue
  {
    var clock := SvecF(me, Clock(s.nodes[me].store));
    var a := Step(cfg, s, Broadcast(me));
    var b := Step(cfg, a, Transmit(me, clock));
    var c := Step(cfg, b, Deliver(far, clock));
    var acts := Ask(s, me, far);
    assert acts[1..] == [Transmit(me, clock), Deliver(far, clock)];
    assert acts[1..][1..] == [Deliver(far, clock)];
    assert acts[1..][1..][1..] == [];
    assert Valid(cfg, c, []);
    assert Valid(cfg, b, acts[1..][1..]);
    assert Valid(cfg, a, acts[1..]);
    assert Exec(cfg, c, []) == c;
    assert Exec(cfg, b, acts[1..][1..]) == c;
    assert Exec(cfg, a, acts[1..]) == c;
    assert Exec(cfg, s, acts) == c;
  }

  /** A calm run that delivers the whole answer serves every origin as far as the messages can be got. */
  lemma AnswerServes(cfg: Config, s: Net, me: Callsign, far: Callsign, vector: Vector, acts: seq<Action>, o: Callsign)
    requires Inv(cfg, s) && me in s.nodes && far in s.nodes && SvecF(me, vector) in s.air
    requires Valid(cfg, s, acts) && Calm(acts)
    requires forall f :: f in FramesForAll(cfg, Missing(s.nodes[far].store, me, vector)) ==> Deliver(me, f) in acts
    ensures me in Exec(cfg, s, acts).nodes
    ensures Obtainable(cfg, s.nodes[me], s.nodes[far].store, o) <= ClockAt(Exec(cfg, s, acts).nodes[me].store, o)
  {
    var store := s.nodes[far].store;
    var k := Obtainable(cfg, s.nodes[me], store, o);
    ObtainableIsAtMost(cfg, s.nodes[me], store, o);
    assert NodeOk(cfg, s.posted, far, s.nodes[far]);
    forall id | id in store && InFirst(store, o, k, id) && store[id] in Missing(store, me, vector)
      ensures Reaches(cfg, s, acts, me, store[id])
    {
      ObtainableRow(cfg, s, s.nodes[me], store, o, id);
    }
    SyncRound(cfg, s, far, me, vector, s, acts, o, k);
  }

  /** The second half: every frame that answers the clock is sent and reaches `me`. */
  lemma AnswerRun(cfg: Config, s: Net, me: Callsign, far: Callsign, vector: Vector) returns (acts: seq<Action>)
    requires Inv(cfg, s) && me in s.nodes && far in s.nodes && SvecF(me, vector) in s.air
    requires FramesForAll(cfg, Missing(s.nodes[far].store, me, vector)) <= s.nodes[far].queue
    ensures Valid(cfg, s, acts) && Quiet(acts) && me in Exec(cfg, s, acts).nodes
    ensures forall o :: Obtainable(cfg, s.nodes[me], s.nodes[far].store, o) <= ClockAt(Exec(cfg, s, acts).nodes[me].store, o)
  {
    var fs := ListOf(FramesForAll(cfg, Missing(s.nodes[far].store, me, vector)));
    var send, receive := Transmits(far, fs), Deliveries(me, fs);
    TransmitsRun(cfg, s, far, fs);
    DeliveriesRun(cfg, Exec(cfg, s, send), me, fs);
    ExecConcat(cfg, s, send, receive);
    CalmConcat(send, receive);
    acts := send + receive;
    forall o
      ensures me in Exec(cfg, s, acts).nodes
      ensures Obtainable(cfg, s.nodes[me], s.nodes[far].store, o) <= ClockAt(Exec(cfg, s, acts).nodes[me].store, o)
    {
      AnswerServes(cfg, s, me, far, vector, acts, o);
    }
    AnswerServes(cfg, s, me, far, vector, acts, far);
  }

  /**
    * A lossless exchange, from any good state: `far` answers the clock of `me`, and every frame of the
    * answer arrives. Afterwards `me` has, of every origin, all that `far` has before the first message
    * that `me` can not get; of `far` itself that is everything posted before the first such message.
    */
  lemma LosslessExchange(cfg: Config, s: Net, me: Callsign, far: Callsign) returns (acts: seq<Action>)
    requires Inv(cfg, s) && me in s.nodes && far in s.nodes
    ensures Valid(cfg, s, acts) && Quiet(acts) && me in Exec(cfg, s, acts).nodes
    ensures var t := Exec(cfg, s, acts);
            && (forall o :: Obtainable(cfg, s.nodes[me], s.nodes[far].store, o) <= ClockAt(t.nodes[me].store, o))
            && Obtainable(cfg, s.nodes[me], s.posted, far) <= ClockAt(t.nodes[me].store, far)
  {
    var ask := Ask(s, me, far);
    AskRun(cfg, s, me, far);
    var a := Exec(cfg, s, ask);
    ExecKeepsInv(cfg, s, ask);
    var answer := AnswerRun(cfg, a, me, far, Clock(s.nodes[me].store));
    ExecConcat(cfg, s, ask, answer);
    CalmConcat(ask, answer);
    acts := ask + answer;
    assert NodeOk(cfg, s.posted, far, s.nodes[far]);
    forall o
      ensures Obtainable(cfg, s.nodes[me], s.nodes[far].store, o) <= ClockAt(Exec(cfg, s, acts).nodes[me].store, o)
    {
      RunKeepsObtainable(cfg, s, ask, me, s.nodes[far].store, o);
    }
    OwnTableOffersAll(cfg, s, s.nodes[me], far);
  }

  /**
    * While some node can still get the next message of some origin, an exchange with that origin
    * strictly lowers the measure, whatever else is blocked or does not fit.
    */
  lemma ExchangeLowersDeficit(cfg: Config, s: Net, pairs: Pairs, c: Callsign, o: Callsign) returns (acts: seq<Action>)
    requires Inv(cfg, s) && AllPairs(s, pairs) && CanGain(cfg, s, c, o)
    ensures Valid(cfg, s, acts) && Quiet(acts)
    ensures var t := Exec(cfg, s, acts);
            Inv(cfg, t) && AllPairs(t, pairs) && 0 <= Deficit(t, pairs) < Deficit(s, pairs)
  {
    acts := LosslessExchange(cfg, s, c, o);
    var t := Exec(cfg, s, acts);
    ExecKeepsInv(cfg, s, acts);
    NoPostsKeepHistory(cfg, s, acts);
    assert (c, o) in pairs && Gap(t, (c, o).0, (c, o).1) < Gap(s, (c, o).0, (c, o).1);
    DeficitFalls(cfg, s, t, pairs);
  }

  /** The node can still gain a message of the origin. */
  ghost predicate CanGain(cfg: Config, s: Net, c: Callsign, o: Callsign) {
    c in s.nodes && o in s.nodes && ClockAt(s.nodes[c].store, o) < Obtainable(cfg, s.nodes[c], s.posted, o)
  }

  /** A run without posts in which the node neither restarts nor forgets a fragment. */
  ghost predicate Remembers(acts: seq<Action>, c: Callsign) {
    NoRestart(acts, c) && forall id :: KeepsFragKeys(acts, c, id)
  }

  /** What such a run has brought was gettable at its start. */
  lemma BroughtWasGettable(cfg: Config, s: Net, acts: seq<Action>, c: Callsign, id: MsgId)
    requires Inv(cfg, s) && Valid(cfg, s, acts) && NoPosts(acts) && c in s.nodes && Remembers(acts, c)
    requires c in Exec(cfg, s, acts).nodes && id in Exec(cfg, s, acts).nodes[c].store
    ensures id in s.posted && s.posted[id] == Exec(cfg, s, acts).nodes[c].store[id]
    ensures Gettable(cfg, s.nodes[c], s.posted[id])
  {
    var t := Exec(cfg, s, acts);
    ExecKeepsInv(cfg, s, acts);
    NoPostsKeepHistory(cfg, s, acts);
    assert NodeOk(cfg, s.posted, c, s.nodes[c]);
    assert NodeOk(cfg, t.posted, c, t.nodes[c]);
    assert PostOk(cfg, s.nodes.Keys, s.posted, id);
    if Blocked(cfg, s.nodes[c], s.posted[id]) {
      assert KeepsFragKeys(acts, c, id);
      RunKeepsBlocked(cfg, s, c, acts, s.posted[id]);
    }
  }

  /** Such a run takes no clock past what was obtainable at its start. */
  lemma ObtainableIsBound(cfg: Config, s: Net, acts: seq<Action>, c: Callsign, o: Callsign)
    requires Inv(cfg, s) && Valid(cfg, s, acts) && NoPosts(acts) && c in s.nodes && Remembers(acts, c)
    ensures c in Exec(cfg, s, acts).nodes
    ensures ClockAt(Exec(cfg, s, acts).nodes[c].store, o) <= Obtainable(cfg, s.nodes[c], s.posted, o)
  {
    ExecKeepsInv(cfg, s, acts);
    var store := Exec(cfg, s, acts).nodes[c].store;
    forall i | i in SeqsOf(store, o)
      ensures i in GettableSeqs(cfg, s.nodes[c], s.posted, o)
    {
      var id :| id in store && store[id].from == o && store[id].seqNo.Some? && store[id].seqNo.value == i;
      BroughtWasGettable(cfg, s, acts, c, id);
    }
    PrefixMonotone(SeqsOf(store, o), GettableSeqs(cfg, s.nodes[c], s.posted, o));
  }

  lemma QuietRemembers(acts: seq<Action>, c: Callsign)
    requires Quiet(acts)
    ensures NoPosts(acts) && Remembers(acts, c)
  {
  }

  /** The run lowers the measure, and no node restarts or forgets a fragment in it. */
  ghost predicate Lowers(cfg: Config, s: Net, acts: seq<Action>, pairs: Pairs)
    requires PairsOf(s, pairs)
  {
    && Valid(cfg, s, acts) && NoPosts(acts) && (forall c :: c in s.nodes ==> Remembers(acts, c))
    && PairsOf(Exec(cfg, s, acts), pairs) && Deficit(Exec(cfg, s, acts), pairs) < Deficit(s, pairs)
  }

  lemma {:induction false} LowerSomewhere(cfg: Config, s: Net, t: Net, pairs: Pairs) returns (p: (Callsign, Callsign))
    requires PairsOf(s, pairs) && PairsOf(t, pairs) && Deficit(t, pairs) < Deficit(s, pairs)
    ensures p in pairs && Gap(t, p.0, p.1) < Gap(s, p.0, p.1)
  {
    assert pairs[0] in pairs;
    p := pairs[0];
    if Gap(t, p.0, p.1) >= Gap(s, p.0, p.1) {
      p := LowerSomewhere(cfg, s, t, pairs[1..]);
    }
  }

  /**
    * Progress, exactly: some run without posts, restarts and forgotten fragments lowers the measure if and
    * only if some node can still gain a message of some origin.
    */
  lemma ProgressIff(cfg: Config, s: Net, pairs: Pairs)
    requires Inv(cfg, s) && AllPairs(s, pairs)
    ensures (exists acts :: Lowers(cfg, s, acts, pairs)) <==> exists c, o :: CanGain(cfg, s, c, o)
  {
    if c, o :| CanGain(cfg, s, c, o) {
      var acts := ExchangeLowersDeficit(cfg, s, pairs, c, o);
      forall x | x in s.nodes
        ensures Remembers(acts, x)
      {
        QuietRemembers(acts, x);
      }
      assert Lowers(cfg, s, acts, pairs);
    }
    if acts :| Lowers(cfg, s, acts, pairs) {
      var t := Exec(cfg, s, acts);
      var p := LowerSomewhere(cfg, s, t, pairs);
      NoPostsKeepHistory(cfg, s, acts);
      ObtainableIsBound(cfg, s, acts, p.0, p.1);
      assert CanGain(cfg, s, p.0, p.1);
    }
  }

  /** While nothing is blocked, every post fits and the measure is positive, some node can gain a message. */
  lemma BehindCanGain(cfg: Config, s: Net, pairs: Pairs) returns (c: Callsign, o: Callsign)
    requires Inv(cfg, s) && NoneBlocked(cfg, s) && AllFit(cfg, s.posted)
    requires AllPairs(s, pairs) && Deficit(s, pairs) > 0
    ensures CanGain(cfg, s, c, o)
  {
    ZeroDeficitIffConverged(cfg, s, pairs);
    ConvergedIffNoGap(cfg, s);
    c, o :| c in s.nodes && o in s.nodes && Gap(s, c, o) != 0;
    GapNonNegative(cfg, s, c, o);
    OpenNodeObtains(cfg, s.nodes[c], s.posted, o);
    LimitWhenAllFit(cfg, s.posted, o);
  }

  /** So while the measure is positive an exchange strictly lowers it. */
  lemma PositiveDeficitFalls(cfg: Config, s: Net, pairs: Pairs) returns (acts: seq<Action>)
    requires Inv(cfg, s) && NoneBlocked(cfg, s) && AllFit(cfg, s.posted)
    requires AllPairs(s, pairs) && Deficit(s, pairs) > 0
    ensures Lowers(cfg, s, acts, pairs)
  {
    var c, o := BehindCanGain(cfg, s, pairs);
    acts := ExchangeLowersDeficit(cfg, s, pairs, c, o);
    forall x | x in s.nodes
      ensures Remembers(acts, x)
    {
      QuietRemembers(acts, x);
    }
  }

  /** One exchange for each listed pair brings every listed node level with what it could get, whatever the order. */
  lemma {:induction false} ExchangeAll(cfg: Config, s: Net, pairs: Pairs) returns (acts: seq<Action>)
    requires Inv(cfg, s) && PairsOf(s, pairs)
    ensures Valid(cfg, s, acts) && Calm(acts) && Exec(cfg, s, acts).nodes.Keys == s.nodes.Keys
    ensures forall p :: p in pairs ==>
              p.0 in s.nodes && p.0 in Exec(cfg, s, acts).nodes
              && Obtainable(cfg, s.nodes[p.0], s.posted, p.1) <= ClockAt(Exec(cfg, s, acts).nodes[p.0].store, p.1)
    decreases |pairs|
  {
    acts := [];
    if pairs != [] {
      var p := pairs[0];
      assert p in pairs;
      assert forall q :: q in pairs[1..] ==> q in pairs;
      var first := LosslessExchange(cfg, s, p.0, p.1);
      var a := Exec(cfg, s, first);
      ExecKeepsInv(cfg, s, first);
      NoPostsKeepHistory(cfg, s, first);
      var rest := ExchangeAll(cfg, a, pairs[1..]);
      var t := Exec(cfg, a, rest);
      ExecKeepsInv(cfg, a, rest);
      ExecConcat(cfg, s, first, rest);
      CalmConcat(first, rest);
      acts := first + rest;
      forall q | q in pairs
        ensures Obtainable(cfg, s.nodes[q.0], s.posted, q.1) <= ClockAt(t.nodes[q.0].store, q.1)
      {
        if q in pairs[1..] {
          RunKeepsObtainable(cfg, s, first, q.0, s.posted, q.1);
        } else {
          ClockMonotone(a.nodes[q.0].store, t.nodes[q.0].store, q.1);
        }
      }
    }
  }

  // ---- the limit, and convergence ----

  ghost predicate AllFit(cfg: Config, posted: Store) {
    forall id :: id in posted ==> Fits(cfg, posted[id])
  }

  ghost function FittingSeqs(cfg: Config, posted: Store, o: Callsign): set<int> {
    set id | id in posted && posted[id].from == o && posted[id].seqNo.Some? && Fits(cfg, posted[id]) :: posted[id].seqNo.value
  }

  /** The number of posts of an origin before its first that does not fit. */
  ghost function Limit(cfg: Config, posted: Store, o: Callsign): nat {
    Prefix(FittingSeqs(cfg, posted, o))
  }

  lemma FittingWhere(cfg: Config, posted: Store, o: Callsign, i: int) returns (id: MsgId)
    requires i in FittingSeqs(cfg, posted, o)
    ensures id in posted && posted[id].from == o && posted[id].seqNo == Some(i) && Fits(cfg, posted[id])
  {
    id :| id in posted && posted[id].from == o && posted[id].seqNo.Some? && Fits(cfg, posted[id]) && posted[id].seqNo.value == i;
  }

  /** No clock for another origin ever passes the limit: a misfit stays with its origin. */
  lemma ClockWithinLimit(cfg: Config, s: Net, c: Callsign, o: Callsign)
    requires Inv(cfg, s) && c in s.nodes && c != o
    ensures ClockAt(s.nodes[c].store, o) <= Limit(cfg, s.posted, o)
  {
    var store := s.nodes[c].store;
    assert NodeOk(cfg, s.posted, c, s.nodes[c]);
    forall i | i in SeqsOf(store, o)
      ensures i in FittingSeqs(cfg, s.posted, o)
    {
      var id :| id in store && store[id].from == o && store[id].seqNo.Some? && store[id].seqNo.value == i;
      assert s.posted[id] == store[id];
    }
    PrefixMonotone(SeqsOf(store, o), FittingSeqs(cfg, s.posted, o));
  }

  /** Every run without posts that serves each pair up to the limit takes every clock exactly there. */
  lemma ServedRunIsAtLimit(cfg: Config, s: Net, acts: seq<Action>)
    requires Inv(cfg, s) && Valid(cfg, s, acts) && NoPosts(acts)
    requires forall c, o :: c in s.nodes && o in s.nodes && c != o ==> ServedUpTo(cfg, s, acts, c, o, Limit(cfg, s.posted, o))
    ensures AtLimit(cfg, Exec(cfg, s, acts))
  {
    var t := Exec(cfg, s, acts);
    ExecKeepsInv(cfg, s, acts);
    NoPostsKeepHistory(cfg, s, acts);
    forall c, o | c in t.nodes && o in t.nodes && c != o
      ensures ClockAt(t.nodes[c].store, o) == Limit(cfg, t.posted, o)
    {
      LimitIsAtMost(cfg, s.posted, o);
      ServedRunReaches(cfg, s, acts, c, o, Limit(cfg, s.posted, o));
      ClockWithinLimit(cfg, t, c, o);
    }
  }

  lemma LimitIsAtMost(cfg: Config, posted: Store, o: Callsign)
    ensures Limit(cfg, posted, o) <= ClockAt(posted, o)
  {
    var a, b := FittingSeqs(cfg, posted, o), SeqsOf(posted, o);
    forall i | i in a
      ensures i in b
    {
      var id := FittingWhere(cfg, posted, o, i);
    }
    PrefixMonotone(a, b);
  }

  /** A node where no post is blocked can obtain everything up to the limit. */
  lemma OpenNodeObtains(cfg: Config, n: NodeState, posted: Store, o: Callsign)
    requires forall id :: id in posted ==> !Blocked(cfg, n, posted[id])
    ensures Limit(cfg, posted, o) <= Obtainable(cfg, n, posted, o)
  {
    var a, b := FittingSeqs(cfg, posted, o), GettableSeqs(cfg, n, posted, o);
    forall i | i in a
      ensures i in b
    {
      var id := FittingWhere(cfg, posted, o, i);
      assert Gettable(cfg, n, posted[id]);
    }
    PrefixMonotone(a, b);
  }

  lemma LimitWhenAllFit(cfg: Config, posted: Store, o: Callsign)
    requires AllFit(cfg, posted)
    ensures Limit(cfg, posted, o) == ClockAt(posted, o)
  {
    var a, b := FittingSeqs(cfg, posted, o), SeqsOf(posted, o);
    forall i | i in b
      ensures i in a
    {
      var id :| id in posted && posted[id].from == o && posted[id].seqNo.Some? && posted[id].seqNo.value == i;
    }
    forall i | i in a
      ensures i in b
    {
      var id := FittingWhere(cfg, posted, o, i);
    }
    assert a == b;
  }

  /** Once the seen caches of the listed nodes have expired, nothing is blocked there. */
  lemma {:induction false} ForgetAll(cfg: Config, s: Net, cs: seq<Callsign>) returns (acts: seq<Action>)
    requires Inv(cfg, s) && forall c :: c in cs ==> c in s.nodes
    ensures Valid(cfg, s, acts) && Calm(acts)
    ensures var t := Exec(cfg, s, acts);
            && Inv(cfg, t) && Grows(s, t)
            && (forall c :: c in cs ==> t.nodes[c].seen == {})
            && (forall c :: c in s.nodes && s.nodes[c].seen == {} ==> t.nodes[c].seen == {})
    decreases |cs|
  {
    acts := [];
    if cs != [] {
      assert cs[0] in cs;
      assert forall c :: c in cs[1..] ==> c in cs;
      var forget := ForgetSeen(cs[0], s.nodes[cs[0]].seen);
      var a := Step(cfg, s, forget);
      StepKeepsInv(cfg, s, forget);
      var rest := ForgetAll(cfg, a, cs[1..]);
      acts := [forget] + rest;
      assert acts[1..] == rest;
      GrowsTrans(s, a, Exec(cfg, a, rest));
      assert forall c :: c in cs ==> c == cs[0] || c in cs[1..];
    }
  }

  /** Every clock has reached the limit of every other origin. */
  ghost predicate AtLimit(cfg: Config, s: Net) {
    forall c, o :: c in s.nodes && o in s.nodes && c != o ==> ClockAt(s.nodes[c].store, o) == Limit(cfg, s.posted, o)
  }

  ghost predicate ReachesLimitBy(cfg: Config, s: Net, acts: seq<Action>) {
    Valid(cfg, s, acts) && NoPosts(acts) && AtLimit(cfg, Exec(cfg, s, acts))
  }

  /** From any good state some run without posts takes every clock to its limit at once. */
  lemma CanReachLimit(cfg: Config, s: Net) returns (acts: seq<Action>)
    requires Inv(cfg, s)
    ensures ReachesLimitBy(cfg, s, acts)
  {
    var cs := ListOf(s.nodes.Keys);
    var forget := ForgetAll(cfg, s, cs);
    var a := Exec(cfg, s, forget);
    var pairs := ListOf(set c, o | c in s.nodes && o in s.nodes :: (c, o));
    var exchange := ExchangeAll(cfg, a, pairs);
    ExecConcat(cfg, s, forget, exchange);
    CalmConcat(forget, exchange);
    acts := forget + exchange;
    var t := Exec(cfg, a, exchange);
    ExecKeepsInv(cfg, a, exchange);
    NoPostsKeepHistory(cfg, s, acts);
    NoPostsKeepHistory(cfg, s, forget);
    forall c, o | c in t.nodes && o in t.nodes && c != o
      ensures ClockAt(t.nodes[c].store, o) == Limit(cfg, t.posted, o)
    {
      assert (c, o) in pairs;
      OpenNodeObtains(cfg, a.nodes[c], a.posted, o);
      ClockWithinLimit(cfg, t, c, o);
    }
  }

  /**
    * What can be attained without posts, exactly: no run takes a clock for another origin past the
    * number of that origin's posts before its first misfit, and one run takes all clocks there.
    */
  lemma LimitIsAttained(cfg: Config, s: Net)
    requires Reachable(cfg, s)
    ensures forall acts, c, o :: Valid(cfg, s, acts) && NoPosts(acts) && c in Exec(cfg, s, acts).nodes && c != o ==>
              ClockAt(Exec(cfg, s, acts).nodes[c].store, o) <= Limit(cfg, s.posted, o)
    ensures exists acts :: ReachesLimitBy(cfg, s, acts)
  {
    ReachableInv(cfg, s);
    forall acts, c, o | Valid(cfg, s, acts) && NoPosts(acts) && c in Exec(cfg, s, acts).nodes && c != o
      ensures ClockAt(Exec(cfg, s, acts).nodes[c].store, o) <= Limit(cfg, s.posted, o)
    {
      ExecKeepsInv(cfg, s, acts);
      NoPostsKeepHistory(cfg, s, acts);
      ClockWithinLimit(cfg, Exec(cfg, s, acts), c, o);
    }
    var acts := CanReachLimit(cfg, s);
    assert ReachesLimitBy(cfg, s, acts);
  }

  ghost predicate ConvergesBy(cfg: Config, s: Net, acts: seq<Action>) {
    Valid(cfg, s, acts) && NoPosts(acts) && Converged(Exec(cfg, s, acts))
  }

  /** When every post fits, the limit is convergence. */
  lemma CanConverge(cfg: Config, s: Net) returns (acts: seq<Action>)
    requires Inv(cfg, s) && AllFit(cfg, s.posted)
    ensures ConvergesBy(cfg, s, acts)
  {
    acts := CanReachLimit(cfg, s);
    var t := Exec(cfg, s, acts);
    ExecKeepsInv(cfg, s, acts);
    NoPostsKeepHistory(cfg, s, acts);
    forall c, o | c in t.nodes && o in t.nodes
      ensures Gap(t, c, o) == 0
    {
      GapNonNegative(cfg, t, c, o);
      LimitWhenAllFit(cfg, t.posted, o);
    }
    ConvergedIffNoGap(cfg, t);
  }

  /** A post that does not fit never leaves its origin. */
  lemma MisfitStaysHome(cfg: Config, s: Net, id: MsgId, c: Callsign)
    requires Inv(cfg, s) && id in s.posted && c in s.nodes
    requires !Fits(cfg, s.posted[id])
    ensures id in s.nodes[c].store <==> c == s.posted[id].from
  {
    assert NodeOk(cfg, s.posted, c, s.nodes[c]);
  }

  /**
    * Convergence, exactly. From any reachable state some continuation without posts makes all
    * tables equal if and only if every post fits into 255 fragments, or there is nobody to tell.
    */
  lemma ConvergesIffEveryPostFits(cfg: Config, s: Net)
    requires Reachable(cfg, s)
    ensures (exists acts :: ConvergesBy(cfg, s, acts)) <==> (|s.nodes| <= 1 || AllFit(cfg, s.posted))
  {
    ReachableInv(cfg, s);
    if AllFit(cfg, s.posted) {
      var acts := CanConverge(cfg, s);
      assert ConvergesBy(cfg, s, acts);
    } else if |s.nodes| <= 1 {
      LoneNodeHasAll(cfg, s);
      assert ConvergesBy(cfg, s, []);
    } else {
      var id :| id in s.posted && !Fits(cfg, s.posted[id]);
      var other := OtherNode(s, s.posted[id].from);
      forall acts | Valid(cfg, s, acts) && NoPosts(acts)
        ensures !ConvergesBy(cfg, s, acts)
      {
        ExecKeepsInv(cfg, s, acts);
        NoPostsKeepHistory(cfg, s, acts);
        MisfitStaysHome(cfg, Exec(cfg, s, acts), id, other);
      }
    }
  }

  lemma OtherNode(s: Net, c: Callsign) returns (other: Callsign)
    requires |s.nodes| > 1
    ensures other in s.nodes && other != c
  {
    KeysSize(s.nodes);
    var rest := s.nodes.Keys - {c};
    assert |rest| >= |s.nodes.Keys| - 1;
    other :| other in rest;
  }

  lemma LoneNodeHasAll(cfg: Config, s: Net)
    requires Inv(cfg, s) && |s.nodes| <= 1
    ensures Converged(s)
  {
    KeysSize(s.nodes);
    forall c, o | c in s.nodes && o in s.nodes
      ensures Gap(s, c, o) == 0
    {
      assert {c, o} <= s.nodes.Keys;
      SmallSet(s.nodes.Keys, c, o);
      GapNonNegative(cfg, s, c, o);
    }
    ConvergedIffNoGap(cfg, s);
  }

  lemma SmallSet<T>(items: set<T>, a: T, b: T)
    requires a in items && b in items && |items| <= 1
    ensures a == b
  {
    assert |items - {a}| == 0;
    assert b !in items - {a};
  }
}
