/** The fragmenter and its collectors, which change in place. */
module Fragmenters {
  import opened Wrappers
  import opened Messages
  import opened Fragmentation

  const COLLECTOR_TIMEOUT := 300

  class FragmentCollector {
    const messageId: MsgId
    const total: int
    const firstSeen: int
    var fragments: map<int, seq<byte>>

    constructor (messageId: MsgId, total: int, now: int)
      ensures this.messageId == messageId && this.firstSeen == now
      ensures View() == Partial(total, map[])
    {
      this.messageId := messageId;
      this.total := total;
      this.firstSeen := now;
      this.fragments := map[];
    }

    function View(): Partial
      reads this
    {
      Partial(total, fragments)
    }

    /** Takes the fragment unless it is another message's, of another total, or already here. */
    method AddFragment(f: Frag) returns (isNew: bool)
      modifies this
      ensures isNew <==> f.id == messageId && f.total == total && f.idx !in old(fragments)
      ensures fragments == if isNew then old(fragments)[f.idx := f.data] else old(fragments)
    {
      if f.id != messageId {
        return false;
      }
      if f.total != total {
        return false;
      }
      if f.idx in fragments {
        return false;
      }
      fragments := fragments[f.idx := f.data];
      return true;
    }

    predicate IsComplete()
      reads this
    {
      |fragments| == total
    }

    predicate IsExpired(now: int) {
      now - firstSeen > COLLECTOR_TIMEOUT
    }

    /** The indexes still missing, in order. When all stored indexes are in range, they and the stored ones make up the total. */
    method GetMissingIndexes() returns (missing: seq<int>)
      ensures forall i :: i in missing <==> 0 <= i < total && i !in fragments
      ensures forall j, k :: 0 <= j < k < |missing| ==> missing[j] < missing[k]
      ensures total >= 0 && (forall i :: i in fragments ==> 0 <= i < total) ==> |missing| + |fragments| == total
    {
      missing := [];
      var i := 0;
      while i < total
        invariant 0 <= i <= total || (total < 0 && i == 0)
        invariant forall k :: k in missing <==> 0 <= k < i && k !in fragments
        invariant forall j :: 0 <= j < |missing| ==> missing[j] < i
        invariant forall j, k :: 0 <= j < k < |missing| ==> missing[j] < missing[k]
      {
        if i !in fragments {
          missing := missing + [i];
        }
        i := i + 1;
      }
      MissingSize(View(), missing);
    }

    /** The data in index order, once the count is reached. */
    method Reassemble() returns (data: Option<seq<byte>>)
      ensures data == if IsComplete() then Some(JoinFrom(fragments, 0, total)) else None
    {
      if !IsComplete() {
        return None;
      }
      var result := [];
      var i := 0;
      while i < total
        invariant 0 <= i <= total
        invariant result + JoinFrom(fragments, i, total) == JoinFrom(fragments, 0, total)
      {
        result := result + (if i in fragments then fragments[i] else []);
        i := i + 1;
      }
      assert result + [] == result;
      return Some(result);
    }
  }

  lemma MissingSize(p: Partial, missing: seq<int>)
    requires forall i :: i in missing <==> 0 <= i < p.total && i !in p.parts
    requires forall j, k :: 0 <= j < k < |missing| ==> missing[j] < missing[k]
    ensures p.total >= 0 && (forall i :: i in p.parts ==> 0 <= i < p.total) ==> |missing| + |p.parts| == p.total
  {
    if p.total >= 0 && forall i :: i in p.parts ==> 0 <= i < p.total {
      CompleteIffNoneMissing(p);
      AscendingSize(missing, Range(p.total) - p.parts.Keys);
    }
  }

  lemma {:induction false} AscendingSize(list: seq<int>, items: set<int>)
    requires forall j, k :: 0 <= j < k < |list| ==> list[j] < list[k]
    requires forall x :: x in list <==> x in items
    ensures |list| == |items|
    decreases |list|
  {
    if list == [] {
      assert forall x :: x in items ==> x in list;
    } else {
      var last := list[|list| - 1];
      var front := list[..|list| - 1];
      assert list == front + [last];
      assert last !in front;
      AscendingSize(front, items - {last});
    }
  }

  lemma OfferedAndRemoved(ps: Partials, id: MsgId, q: Partial)
    ensures ps[id := q] - {id} == ps - {id}
  {
  }

  class Fragmenter {
    const threshold: int
    const codec: Codec
    var collectors: map<MsgId, FragmentCollector>

    constructor (threshold: int, codec: Codec)
      ensures Valid() && View() == map[]
      ensures this.threshold == threshold && this.codec == codec
    {
      this.threshold := threshold;
      this.codec := codec;
      this.collectors := map[];
    }

    /** Each collector is filed under its own message id, so no two entries share one. */
    ghost predicate Valid()
      reads this
    {
      forall id :: id in collectors ==> collectors[id].messageId == id
    }

    /** Every collector is one of the earlier ones, or was started now. */
    ghost predicate StartedBy(earlier: map<MsgId, FragmentCollector>, now: int)
      reads this
    {
      forall id :: id in collectors ==>
        if id in earlier then collectors[id] == earlier[id] else collectors[id].firstSeen == now
    }

    ghost function View(): Partials
      reads this, collectors.Values
    {
      map id | id in collectors :: collectors[id].View()
    }

    /** Cuts the encoding at multiples of the fragment size. */
    method FragmentMessage(m: Msg) returns (frags: seq<Frag>)
      ensures frags == FragmentsOf(m, threshold, codec)
    {
      var encoded := codec.encode(m);
      if |encoded| <= threshold {
        return [];
      }
      var fragmentSize: nat := FragmentSize(threshold);
      var total: nat := CeilDiv(|encoded|, fragmentSize);
      ghost var cs := Chunks(encoded, fragmentSize);
      ChunksCount(encoded, fragmentSize);
      frags := [];
      var i := 0;
      while i < total
        invariant 0 <= i <= total
        invariant frags == FragmentsOf(m, threshold, codec)[..i]
      {
        ChunkAt(encoded, fragmentSize, i);
        var start: nat := i * fragmentSize;
        var end := start + fragmentSize;
        if end > |encoded| {
          end := |encoded|;
        }
        frags := frags + [Frag(m.id, i, total, encoded[start..end])];
        i := i + 1;
      }
    }

    /** Finds the collector of a message, or makes one. */
    method CollectorFor(f: Frag, now: int) returns (collector: FragmentCollector)
      requires Valid()
      modifies this
      ensures Valid() && collectors == old(collectors)[f.id := collector]
      ensures f.id in old(collectors) ==> collector == old(collectors)[f.id]
      ensures f.id !in old(collectors) ==>
                fresh(collector) && collector.View() == Partial(f.total, map[]) && collector.firstSeen == now
    {
      if f.id in collectors {
        collector := collectors[f.id];
      } else {
        collector := new FragmentCollector(f.id, f.total, now);
        collectors := collectors[f.id := collector];
      }
    }

    /** The first half of AddFragment: the fragment is offered to its collector. */
    method OfferFragment(f: Frag, now: int) returns (isNew: bool)
      requires Valid()
      modifies this, collectors.Values
      ensures Valid() && f.id in collectors
      ensures View() == old(View())[f.id := Offer(old(View()), f)]
      ensures isNew == Takes(old(View()), f)
      ensures collectors.Keys == old(collectors).Keys + {f.id} && StartedBy(old(collectors), now)
    {
      var collector := CollectorFor(f, now);
      assert forall id :: id in collectors && id != f.id ==> collectors[id] != collector;
      isNew := collector.AddFragment(f);
    }

    method Remove(id: MsgId)
      requires Valid()
      modifies this
      ensures Valid() && collectors == old(collectors) - {id}
      ensures View() == old(View()) - {id}
    {
      collectors := collectors - {id};
    }

    /** Joins and decodes a collector that has reached its count. */
    method Decode(collector: FragmentCollector) returns (msg: Option<Msg>)
      ensures msg == Completed(collector.View(), codec)
    {
      if !collector.IsComplete() {
        return None;
      }
      var data := collector.Reassemble();
      if data.value == [] {
        return None;
      }
      msg := codec.decode(data.value);
    }

    /** The second half of AddFragment: a collector that decodes is removed. */
    method Settle(id: MsgId) returns (reassembled: Option<Msg>)
      requires Valid() && id in collectors
      modifies this
      ensures Valid() && collectors == if reassembled.Some? then old(collectors) - {id} else old(collectors)
      ensures reassembled == Completed(old(View())[id], codec)
      ensures View() == if reassembled.Some? then old(View()) - {id} else old(View())
    {
      var collector := collectors[id];
      assert collector.View() == View()[id];
      reassembled := Decode(collector);
      if reassembled.Some? {
        Remove(id);
      }
    }

    /** Offers the fragment to its collector; a complete collector that decodes is removed and delivered. */
    method AddFragment(f: Frag, now: int) returns (isNew: bool, reassembled: Option<Msg>)
      requires Valid()
      modifies this, collectors.Values
      ensures Valid()
      ensures var added := Fragmentation.AddFragment(old(View()), f, codec);
              View() == added.partials && isNew == added.isNew && reassembled == added.done
      ensures StartedBy(old(collectors), now)
    {
      if f.total > MAX_FRAGMENTS {
        return false, None;
      }
      isNew := OfferFragment(f, now);
      reassembled := Settle(f.id);
      OfferedAndRemoved(old(View()), f.id, Offer(old(View()), f));
    }

    /** Removes the collectors past their timeout, and no others. */
    method CleanupExpired(now: int) returns (expired: set<MsgId>)
      requires Valid()
      modifies this
      ensures Valid()
      ensures forall id :: id in expired <==> id in old(collectors) && now - old(collectors)[id].firstSeen > 300
      ensures collectors == old(collectors) - expired && View() == old(View()) - expired
    {
      expired := {};
      var todo := collectors.Keys;
      while todo != {}
        invariant todo <= old(collectors).Keys
        invariant forall id :: id in expired <==> id in old(collectors).Keys - todo && old(collectors)[id].IsExpired(now)
        invariant collectors == old(collectors) - expired
        decreases |todo|
      {
        var id :| id in todo;
        todo := todo - {id};
        assert id in collectors;
        if collectors[id].IsExpired(now) {
          expired := expired + {id};
          Remove(id);
        }
      }
    }
  }
}
