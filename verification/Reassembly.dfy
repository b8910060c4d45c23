/** Streams of fragments: what the collectors output under any interleaving, reordering and duplication. */
module Reassembly {
  import opened Wrappers
  import opened Messages
  import opened Fragmentation
  import opened Node
  import opened Gossip

  /** The collectors after a stream of fragments, starting with none. */
  function Collected(fs: seq<Frag>, codec: Codec): Partials {
    if fs == [] then map[] else AddFragment(Collected(fs[..|fs| - 1], codec), fs[|fs| - 1], codec).partials
  }

  /** What the k-th fragment of the stream outputs. */
  function Output(fs: seq<Frag>, k: nat, codec: Codec): Option<Msg>
    requires k < |fs|
  {
    AddFragment(Collected(fs[..k], codec), fs[k], codec).done
  }

  /** The reference: the indexes of one message received since its set was last full. */
  function Open(fs: seq<Frag>, id: MsgId): set<int> {
    if fs == [] then {}
    else
      var before, f := Open(fs[..|fs| - 1], id), fs[|fs| - 1];
      if f.id != id then before
      else if before + {f.idx} == Range(f.total) then {}
      else before + {f.idx}
  }

  /** The k-th fragment fills the set of its message. */
  predicate Fills(fs: seq<Frag>, k: nat)
    requires k < |fs|
  {
    Open(fs[..k], fs[k].id) + {fs[k].idx} == Range(fs[k].total)
  }

  /** Messages with distinct ids that the codec round-trips, cut with one threshold. */
  ghost predicate IsFragment(cfg: Config, posted: Store, f: Frag) {
    && f.id in posted && posted[f.id].id == f.id
    && RoundTrips(cfg.codec, posted[f.id]) && IsFragOf(cfg, posted[f.id], f)
  }

  ghost predicate AreFragments(cfg: Config, posted: Store, fs: seq<Frag>) {
    forall k :: 0 <= k < |fs| ==> IsFragment(cfg, posted, fs[k])
  }

  ghost predicate AllGood(cfg: Config, posted: Store, ps: Partials) {
    forall id {:trigger PartialOk(cfg, posted, id, ps[id])} :: id in ps ==> PartialOk(cfg, posted, id, ps[id])
  }

  lemma OfferFull(cfg: Config, posted: Store, ps: Partials, f: Frag)
    requires IsFragment(cfg, posted, f) && AllGood(cfg, posted, ps)
    ensures var q := Offer(ps, f);
            && q.parts.Keys == Held(ps, f.id) + {f.idx}
            && (|q.parts| == q.total <==> Held(ps, f.id) + {f.idx} == Range(f.total))
  {
    OfferHolds(cfg, posted, ps, f);
    CompleteIffKeysFill(Offer(ps, f));
  }

  /** One fragment: the collector of its message moves as the reference does, and outputs exactly when it fills. */
  lemma AddStep(cfg: Config, posted: Store, ps: Partials, f: Frag)
    requires IsFragment(cfg, posted, f) && AllGood(cfg, posted, ps)
    ensures var added := AddFragment(ps, f, cfg.codec);
            var full := Held(ps, f.id) + {f.idx} == Range(f.total);
            && AllGood(cfg, posted, added.partials)
            && added.done == (if full then Some(posted[f.id]) else None)
            && Held(added.partials, f.id) == (if full then {} else Held(ps, f.id) + {f.idx})
            && forall id :: id != f.id ==> Held(added.partials, id) == Held(ps, id)
  {
    OfferFull(cfg, posted, ps, f);
    AddFragmentOk(cfg, posted, ps, f);
    forall id | id != f.id
      ensures Held(AddFragment(ps, f, cfg.codec).partials, id) == Held(ps, id)
    {
      AddAt(ps, ps, f, id, cfg.codec);
    }
  }

  /** The collectors hold the open indexes of every message, and nothing else. */
  lemma {:induction false} CollectedIsOpen(cfg: Config, posted: Store, fs: seq<Frag>)
    requires AreFragments(cfg, posted, fs)
    ensures AllGood(cfg, posted, Collected(fs, cfg.codec))
    ensures forall id :: Held(Collected(fs, cfg.codec), id) == Open(fs, id)
  {
    if fs != [] {
      var front, f := fs[..|fs| - 1], fs[|fs| - 1];
      CollectedIsOpen(cfg, posted, front);
      AddStep(cfg, posted, Collected(front, cfg.codec), f);
    }
  }

  /** Each message comes out at exactly the fragments that complete its set, equal to the original. */
  lemma OutputsAtCompletion(cfg: Config, posted: Store, fs: seq<Frag>, k: nat)
    requires AreFragments(cfg, posted, fs) && k < |fs|
    ensures Output(fs, k, cfg.codec) == if Fills(fs, k) then Some(posted[fs[k].id]) else None
  {
    CollectedIsOpen(cfg, posted, fs[..k]);
    assert IsFragment(cfg, posted, fs[k]);
    AddStep(cfg, posted, Collected(fs[..k], cfg.codec), fs[k]);
  }

  // ---- one message does not disturb another, whatever the stream ----

  function OfId(fs: seq<Frag>, id: MsgId): seq<Frag> {
    if fs == [] then []
    else OfId(fs[..|fs| - 1], id) + (if fs[|fs| - 1].id == id then [fs[|fs| - 1]] else [])
  }

  /** The collector of an id, if any. */
  function At(ps: Partials, id: MsgId): Option<Partial> {
    if id in ps then Some(ps[id]) else None
  }

  /** A fragment's effect on the collectors, at its own id and at any other. */
  lemma AddAt(ps: Partials, qs: Partials, f: Frag, id: MsgId, codec: Codec)
    ensures f.id != id ==> At(AddFragment(ps, f, codec).partials, id) == At(ps, id)
    ensures At(ps, f.id) == At(qs, f.id) ==>
              && AddFragment(ps, f, codec).done == AddFragment(qs, f, codec).done
              && AddFragment(ps, f, codec).isNew == AddFragment(qs, f, codec).isNew
              && At(AddFragment(ps, f, codec).partials, f.id) == At(AddFragment(qs, f, codec).partials, f.id)
  {
    if At(ps, f.id) == At(qs, f.id) {
      assert Offer(ps, f) == Offer(qs, f);
    }
  }

  lemma {:induction false} CollectorOfId(fs: seq<Frag>, id: MsgId, codec: Codec)
    ensures At(Collected(fs, codec), id) == At(Collected(OfId(fs, id), codec), id)
  {
    if fs != [] {
      var front, f := fs[..|fs| - 1], fs[|fs| - 1];
      CollectorOfId(front, id, codec);
      var own := OfId(fs, id);
      AddAt(Collected(front, codec), Collected(OfId(front, id), codec), f, id, codec);
      if f.id == id {
        assert own[..|own| - 1] == OfId(front, id) && own[|own| - 1] == f;
      } else {
        assert own == OfId(front, id);
      }
    }
  }

  /**
    * What a fragment outputs depends only on the earlier fragments with its own id: for every stream,
    * hostile or conflicting fragments included, and every codec.
    */
  lemma OutputDependsOnOwnId(fs: seq<Frag>, k: nat, codec: Codec)
    requires k < |fs|
    ensures var own := OfId(fs[..k], fs[k].id);
            Output(fs, k, codec) == Output(own + [fs[k]], |own|, codec)
  {
    var own := OfId(fs[..k], fs[k].id);
    assert (own + [fs[k]])[..|own|] == own;
    CollectorOfId(fs[..k], fs[k].id, codec);
    AddAt(Collected(fs[..k], codec), Collected(own, codec), fs[k], fs[k].id, codec);
  }

  // ---- counting, after any parsed stream ----

  ghost predicate AreParsed(fs: seq<Frag>) {
    forall k :: 0 <= k < |fs| ==> FragParses(fs[k])
  }

  lemma ParsedStaysInRange(ps: Partials, f: Frag, codec: Codec)
    requires FragParses(f) && forall id :: id in ps ==> InRange(ps[id])
    ensures forall id :: id in AddFragment(ps, f, codec).partials ==> InRange(AddFragment(ps, f, codec).partials[id])
  {
    assert InRange(Offer(ps, f)) by {
      assert f.id in ps ==> InRange(ps[f.id]);
    }
  }

  lemma {:induction false} CollectorsAreInRange(fs: seq<Frag>, codec: Codec)
    requires AreParsed(fs)
    ensures forall id :: id in Collected(fs, codec) ==> InRange(Collected(fs, codec)[id])
  {
    if fs != [] {
      var front, f := fs[..|fs| - 1], fs[|fs| - 1];
      CollectorsAreInRange(front, codec);
      ParsedStaysInRange(Collected(front, codec), f, codec);
    }
  }

  /**
    * Counting is sound for every collector after every parsed stream, with duplicates, conflicting totals
    * and foreign data: the count equals the total exactly when no index is missing, and missing plus
    * received is the total.
    */
  lemma CountingIsSound(fs: seq<Frag>, id: MsgId, codec: Codec)
    requires AreParsed(fs) && id in Collected(fs, codec)
    ensures var p := Collected(fs, codec)[id];
            && 1 <= p.total && |p.parts| <= p.total
            && (|p.parts| == p.total <==> forall i :: 0 <= i < p.total ==> i in p.parts)
            && |Range(p.total) - p.parts.Keys| + |p.parts| == p.total
  {
    CollectorsAreInRange(fs, codec);
    CompleteIffNoneMissing(Collected(fs, codec)[id]);
  }

  // ---- a full collector that does not decode ----

  /** After any parsed stream, the full collectors are exactly those left stuck. */
  lemma {:induction false} FullCollectorsAreStuck(fs: seq<Frag>, codec: Codec)
    requires AreParsed(fs)
    ensures forall id :: id in Collected(fs, codec) ==>
              (IsStuck(Collected(fs, codec)[id], codec) <==> |Collected(fs, codec)[id].parts| == Collected(fs, codec)[id].total)
  {
    if fs != [] {
      FullCollectorsAreStuck(fs[..|fs| - 1], codec);
      CollectorsAreInRange(fs, codec);
      CollectorsAreInRange(fs[..|fs| - 1], codec);
      CollectorGoesIff(Collected(fs[..|fs| - 1], codec), fs[|fs| - 1], codec);
    }
  }

  datatype Happening = Arrived(frag: Frag) | Expired(ids: set<MsgId>)

  /** The collectors after further fragments and expiries. */
  function After(ps: Partials, hs: seq<Happening>, codec: Codec): Partials
    decreases |hs|
  {
    if hs == [] then ps
    else
      var qs := match hs[0]
        case Arrived(f) => AddFragment(ps, f, codec).partials
        case Expired(ids) => ps - ids;
      After(qs, hs[1..], codec)
  }

  /** Whatever parsed fragments arrive, a stuck collector stays as it is until it expires. */
  lemma {:induction false} StuckUntilExpiry(ps: Partials, hs: seq<Happening>, id: MsgId, codec: Codec)
    requires id in ps && IsStuck(ps[id], codec)
    requires forall h :: h in hs ==> if h.Arrived? then FragParses(h.frag) else id !in h.ids
    ensures At(After(ps, hs, codec), id) == At(ps, id)
    decreases |hs|
  {
    if hs != [] {
      var h := hs[0];
      assert h in hs && forall x :: x in hs[1..] ==> x in hs;
      var qs := if h.Arrived? then AddFragment(ps, h.frag, codec).partials else ps - h.ids;
      if h.Arrived? {
        if h.frag.id == id {
          StuckTakesNothing(ps, h.frag, codec);
        } else {
          AddAt(ps, ps, h.frag, id, codec);
        }
      }
      assert At(qs, id) == At(ps, id);
      StuckUntilExpiry(qs, hs[1..], id, codec);
    }
  }

  // ---- nothing is lost ----

  ghost predicate HasIndex(fs: seq<Frag>, id: MsgId, i: int) {
    exists k :: 0 <= k < |fs| && fs[k].id == id && fs[k].idx == i
  }

  ghost predicate ComesOut(fs: seq<Frag>, m: Msg, codec: Codec) {
    exists k :: 0 <= k < |fs| && fs[k].id == m.id && Output(fs, k, codec) == Some(m)
  }

  lemma OutputOfFront(fs: seq<Frag>, m: Msg, codec: Codec)
    requires fs != [] && ComesOut(fs[..|fs| - 1], m, codec)
    ensures ComesOut(fs, m, codec)
  {
    var front := fs[..|fs| - 1];
    var k :| 0 <= k < |front| && front[k].id == m.id && Output(front, k, codec) == Some(m);
    assert front[..k] == fs[..k];
    assert Output(fs, k, codec) == Some(m);
  }

  /** Until the message comes out, every index received stays open. */
  lemma {:induction false} OpenUntilOutput(cfg: Config, posted: Store, fs: seq<Frag>, id: MsgId)
    requires AreFragments(cfg, posted, fs) && id in posted && posted[id].id == id
    requires !ComesOut(fs, posted[id], cfg.codec)
    ensures forall i :: i in Open(fs, id) <==> HasIndex(fs, id, i)
  {
    if fs != [] {
      var front, f := fs[..|fs| - 1], fs[|fs| - 1];
      if ComesOut(front, posted[id], cfg.codec) {
        OutputOfFront(fs, posted[id], cfg.codec);
      }
      OpenUntilOutput(cfg, posted, front, id);
      OutputsAtCompletion(cfg, posted, fs, |front|);
      IndexesOf(fs, id);
    }
  }

  /** The open set is never the whole set: it is emptied when it fills. */
  lemma {:induction false} OpenNeverFull(fs: seq<Frag>, id: MsgId, n: int)
    requires n > 0 && forall k :: 0 <= k < |fs| && fs[k].id == id ==> fs[k].total == n
    ensures Open(fs, id) != Range(n)
  {
    assert 0 in Range(n);
    if fs != [] {
      OpenNeverFull(fs[..|fs| - 1], id, n);
    }
  }

  lemma IndexesOf(fs: seq<Frag>, id: MsgId)
    requires fs != []
    ensures var f := fs[|fs| - 1];
            forall i :: HasIndex(fs, id, i) <==> HasIndex(fs[..|fs| - 1], id, i) || (f.id == id && f.idx == i)
  {
    var front, f := fs[..|fs| - 1], fs[|fs| - 1];
    forall i
      ensures HasIndex(fs, id, i) <==> HasIndex(front, id, i) || (f.id == id && f.idx == i)
    {
      if HasIndex(front, id, i) {
        var k :| 0 <= k < |front| && front[k].id == id && front[k].idx == i;
        assert fs[k].id == id && fs[k].idx == i;
      }
      if HasIndex(fs, id, i) {
        var k :| 0 <= k < |fs| && fs[k].id == id && fs[k].idx == i;
        assert k < |front| ==> front[k].id == id && front[k].idx == i;
      }
    }
  }

  lemma ProperSubset<T>(a: set<T>, b: set<T>) returns (x: T)
    requires a < b
    ensures x in b && x !in a
  {
    assert !(b <= a);
    x :| x in b && x !in a;
  }

  /** While a message has not come out, some fragment of it has not arrived. */
  lemma SomeMissing(cfg: Config, posted: Store, fs: seq<Frag>, id: MsgId) returns (i: int)
    requires AreFragments(cfg, posted, fs) && id in posted && posted[id].id == id
    requires 0 < |FragmentsOf(posted[id], cfg.threshold, cfg.codec)| && !ComesOut(fs, posted[id], cfg.codec)
    ensures 0 <= i < |FragmentsOf(posted[id], cfg.threshold, cfg.codec)| && !HasIndex(fs, id, i)
  {
    var n := |FragmentsOf(posted[id], cfg.threshold, cfg.codec)|;
    forall k | 0 <= k < |fs| && fs[k].id == id
      ensures fs[k].total == n && 0 <= fs[k].idx < n
    {
      assert IsFragment(cfg, posted, fs[k]);
    }
    OpenUntilOutput(cfg, posted, fs, id);
    OpenNeverFull(fs, id, n);
    i := ProperSubset(Open(fs, id), Range(n));
  }

  /** A message of which every fragment arrived, in any order and any number of times, has come out. */
  lemma ArrivedComesOut(cfg: Config, posted: Store, fs: seq<Frag>, id: MsgId)
    requires AreFragments(cfg, posted, fs) && id in posted && posted[id].id == id
    requires 0 < |FragmentsOf(posted[id], cfg.threshold, cfg.codec)|
    requires forall i :: 0 <= i < |FragmentsOf(posted[id], cfg.threshold, cfg.codec)| ==> HasIndex(fs, id, i)
    ensures ComesOut(fs, posted[id], cfg.codec)
  {
    if !ComesOut(fs, posted[id], cfg.codec) {
      var i := SomeMissing(cfg, posted, fs, id);
    }
  }
}
