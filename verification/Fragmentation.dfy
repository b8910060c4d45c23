/** Splitting an encoded message into FRAG frames, and collecting them back. */
module Fragmentation {
  import opened Wrappers
  import opened Messages

  const FRAG_OVERHEAD := 15
  const MAX_FRAGMENTS := 255

  function FragmentSize(threshold: int): nat {
    if threshold - FRAG_OVERHEAD > 1 then threshold - FRAG_OVERHEAD else 1
  }

  /** The data cut front to back into pieces of the given size. */
  function Chunks(data: seq<byte>, size: nat): seq<seq<byte>>
    requires size >= 1
  {
    if data == [] then []
    else if |data| <= size then [data]
    else [data[..size]] + Chunks(data[size..], size)
  }

  function Flatten(parts: seq<seq<byte>>): seq<byte> {
    if parts == [] then [] else parts[0] + Flatten(parts[1..])
  }

  /** The FRAG frames of a message; none when its encoding fits the threshold. */
  function FragmentsOf(m: Msg, threshold: int, codec: Codec): seq<Frag> {
    var data := codec.encode(m);
    if |data| <= threshold then []
    else
      var cs := Chunks(data, FragmentSize(threshold));
      seq(|cs|, i requires 0 <= i < |cs| => Frag(m.id, i, |cs|, cs[i]))
  }

  /** The state of one collector. */
  datatype Partial = Partial(total: int, parts: map<int, seq<byte>>)

  type Partials = map<MsgId, Partial>

  /** The fragment indexes that the collector of a message holds. */
  function Held(ps: Partials, id: MsgId): set<int> {
    if id in ps then ps[id].parts.Keys else {}
  }

  /** The received data in index order; an absent index contributes nothing. */
  function JoinFrom(parts: map<int, seq<byte>>, i: int, total: int): seq<byte>
    decreases total - i
  {
    if i >= total then []
    else (if i in parts then parts[i] else []) + JoinFrom(parts, i + 1, total)
  }

  datatype Added = Added(partials: Partials, isNew: bool, done: Option<Msg>)

  /** A fragment is taken when it agrees on the total and its index is still open. */
  predicate Takes(ps: Partials, f: Frag) {
    f.id in ps ==> f.total == ps[f.id].total && f.idx !in ps[f.id].parts
  }

  /** The fragment's collector, made on demand, after the fragment is offered to it. */
  function Offer(ps: Partials, f: Frag): Partial {
    var p := if f.id in ps then ps[f.id] else Partial(f.total, map[]);
    if Takes(ps, f) then p.(parts := p.parts[f.idx := f.data]) else p
  }

  /** The message of a collector whose count is reached and whose joined data is non-empty and decodes. */
  function Completed(p: Partial, codec: Codec): Option<Msg> {
    var data := JoinFrom(p.parts, 0, p.total);
    if |p.parts| == p.total && data != [] then codec.decode(data) else None
  }

  /** What adding one fragment does to the collectors. A full collector that does not decode is kept. */
  function AddFragment(ps: Partials, f: Frag, codec: Codec): Added {
    if f.total > MAX_FRAGMENTS then Added(ps, false, None)
    else
      var q := Offer(ps, f);
      var done := Completed(q, codec);
      Added(if done.Some? then ps - {f.id} else ps[f.id := q], Takes(ps, f), done)
  }

  // ---- full collectors ----

  /** A collector of parsed fragments: a positive total, and indexes below it. */
  ghost predicate InRange(p: Partial) {
    p.total >= 1 && forall i :: i in p.parts ==> 0 <= i < p.total
  }

  /** A fragment is new exactly when its total is at most 255 and agrees with its collector's, and its index is open. */
  lemma NewIff(ps: Partials, f: Frag, codec: Codec)
    ensures AddFragment(ps, f, codec).isNew <==>
              && f.total <= 255
              && (f.id in ps ==> f.total == ps[f.id].total && f.idx !in ps[f.id].parts)
    ensures f.total > 255 ==> AddFragment(ps, f, codec).partials == ps
  {
  }

  /** A parsed fragment's collector goes exactly when it is full and its joined data is non-empty and decodes. */
  lemma CollectorGoesIff(ps: Partials, f: Frag, codec: Codec)
    requires f.total <= MAX_FRAGMENTS
    ensures var q := Offer(ps, f);
            var data := JoinFrom(q.parts, 0, q.total);
            && (f.id !in AddFragment(ps, f, codec).partials <==>
                  |q.parts| == q.total && data != [] && codec.decode(data).Some?)
            && (f.id in AddFragment(ps, f, codec).partials ==> AddFragment(ps, f, codec).partials[f.id] == q)
            && AddFragment(ps, f, codec).done
               == (if f.id in AddFragment(ps, f, codec).partials then None else codec.decode(data))
  {
    assert f.id !in ps - {f.id};
  }

  /** Full, and of no use. */
  ghost predicate IsStuck(p: Partial, codec: Codec) {
    InRange(p) && |p.parts| == p.total && Completed(p, codec).None?
  }

  /** A stuck collector takes nothing more: every further parsed fragment of its id changes nothing and yields nothing. */
  lemma StuckTakesNothing(ps: Partials, f: Frag, codec: Codec)
    requires f.id in ps && IsStuck(ps[f.id], codec) && 0 <= f.idx < f.total <= MAX_FRAGMENTS
    ensures AddFragment(ps, f, codec) == Added(ps, false, None)
  {
    CompleteIffNoneMissing(ps[f.id]);
    assert ps[f.id := ps[f.id]] == ps;
  }

  /** The case arises: one fragment that is a whole message, with data that does not decode. */
  lemma UndecodableIsKept(f: Frag, codec: Codec)
    requires f.total == 1 && f.idx == 0 && (f.data == [] || codec.decode(f.data).None?)
    ensures var ps := AddFragment(map[], f, codec).partials;
            f.id in ps && IsStuck(ps[f.id], codec)
  {
    var q := Offer(map[], f);
    assert q == Partial(1, map[0 := f.data]);
    assert JoinFrom(q.parts, 1, 1) == [];
    assert f.data + [] == f.data;
    assert JoinFrom(q.parts, 0, 1) == f.data;
  }

  // ---- the cut ----

  /** The pieces concatenate to the data. */
  lemma {:induction false} ChunksJoin(data: seq<byte>, size: nat)
    requires size >= 1
    ensures Flatten(Chunks(data, size)) == data
  {
    if |data| > size {
      ChunksJoin(data[size..], size);
      var cs := Chunks(data, size);
      assert cs[1..] == Chunks(data[size..], size);
      assert data[..size] + data[size..] == data;
    } else if data != [] {
      assert Flatten([data]) == data + Flatten([]);
    }
  }

  /** Joining the pieces by index is flattening them. */
  lemma {:induction false} JoinIsFlatten(parts: map<int, seq<byte>>, cs: seq<seq<byte>>, i: nat)
    requires i <= |cs|
    requires forall k :: 0 <= k < |cs| ==> k in parts && parts[k] == cs[k]
    ensures JoinFrom(parts, i, |cs|) == Flatten(cs[i..])
    decreases |cs| - i
  {
    if i < |cs| {
      JoinIsFlatten(parts, cs, i + 1);
      assert cs[i..][1..] == cs[i + 1..];
    }
  }

  /** Ceiling division. */
  function CeilDiv(n: nat, d: nat): nat
    requires d >= 1
  {
    (n + d - 1) / d
  }

  lemma MulMonotone(x: int, y: int, d: nat)
    ensures x <= y ==> x * d <= y * d
  {
  }

  lemma QuotientIs(n: int, d: int, q: int)
    requires d >= 1 && q * d <= n < q * d + d
    ensures n / d == q
  {
    var r := n / d;
    assert n == r * d + n % d;
    assert (r + 1) * d == r * d + d && (q + 1) * d == q * d + d;
    MulMonotone(r + 1, q, d);
    MulMonotone(q + 1, r, d);
  }

  /** The shape of the cut: the i-th piece starts at i * size and is full, except that the last ends with the data. */
  lemma {:induction false} ChunkAt(data: seq<byte>, size: nat, i: nat)
    requires size >= 1 && i < |Chunks(data, size)|
    ensures i * size < |data|
    ensures var end := if i * size + size > |data| then |data| else i * size + size;
            Chunks(data, size)[i] == data[i * size..end]
    ensures i + 1 == |Chunks(data, size)| <==> i * size + size >= |data|
  {
    var rest := if |data| > size then data[size..] else [];
    if i > 0 {
      var at := (i - 1) * size;
      ChunkAt(rest, size, i - 1);
      assert i * size == at + size;
      assert forall end :: at <= end <= |rest| ==> rest[at..end] == data[at + size..end + size];
    } else {
      assert i * size == 0;
      assert |data| > size ==> |Chunks(rest, size)| > 0;
    }
  }

  lemma ChunkBounds(data: seq<byte>, size: nat)
    requires size >= 1
    ensures var n := |Chunks(data, size)|;
            n * size - size < |data| <= n * size
  {
    var n := |Chunks(data, size)|;
    if n > 0 {
      ChunkAt(data, size, n - 1);
      assert (n - 1) * size == n * size - size;
    }
  }

  /** The number of pieces is the length divided by the size, rounded up. */
  lemma ChunksCount(data: seq<byte>, size: nat)
    requires size >= 1
    ensures |Chunks(data, size)| == CeilDiv(|data|, size)
  {
    ChunkBounds(data, size);
    QuotientIs(|data| + size - 1, size, |Chunks(data, size)|);
  }

  lemma FewChunksIff(data: seq<byte>, size: nat)
    requires size >= 1
    ensures |Chunks(data, size)| <= MAX_FRAGMENTS <==> |data| <= MAX_FRAGMENTS * size
  {
    var n := |Chunks(data, size)|;
    ChunkBounds(data, size);
    MulMonotone(n, MAX_FRAGMENTS, size);
    MulMonotone(MAX_FRAGMENTS + 1, n, size);
    assert (MAX_FRAGMENTS + 1) * size == MAX_FRAGMENTS * size + size;
  }

  /**
    * Which messages can be reassembled: those whose encoding fits the threshold or 255 pieces of
    * max(1, threshold - 15) bytes.
    */
  lemma FitsIff(m: Msg, threshold: int, codec: Codec)
    ensures |FragmentsOf(m, threshold, codec)| <= 255
       <==> |codec.encode(m)| <= threshold || |codec.encode(m)| <= 255 * (if threshold > 16 then threshold - 15 else 1)
  {
    FewChunksIff(codec.encode(m), FragmentSize(threshold));
  }

  /** Which messages travel whole: those whose encoding fits the threshold, and an empty encoding. */
  lemma WholeIff(m: Msg, threshold: int, codec: Codec)
    ensures FragmentsOf(m, threshold, codec) == [] <==> |codec.encode(m)| <= threshold || codec.encode(m) == []
  {
  }

  /**
    * Each fragment says which message it is of, its place and how many there are, and leaves 15 bytes of the threshold
    * free; every one but the last uses up the rest. A threshold of 15 or less gives single bytes.
    */
  lemma FragmentIs(m: Msg, threshold: int, codec: Codec, i: nat)
    requires i < |FragmentsOf(m, threshold, codec)|
    ensures var frags := FragmentsOf(m, threshold, codec);
            var f := frags[i];
            && f.id == m.id && f.idx == i && f.total == |frags| && 1 <= |f.data|
            && (threshold > 15 ==> |f.data| + 15 <= threshold && (i + 1 < |frags| ==> |f.data| + 15 == threshold))
            && (threshold <= 15 ==> |f.data| == 1)
  {
    ChunkSizes(codec.encode(m), FragmentSize(threshold), i);
  }

  /** Every piece but the last is full; the last is non-empty. */
  lemma ChunkSizes(data: seq<byte>, size: nat, i: nat)
    requires size >= 1 && i < |Chunks(data, size)|
    ensures if i + 1 < |Chunks(data, size)| then |Chunks(data, size)[i]| == size
            else 1 <= |Chunks(data, size)[i]| <= size
  {
    ChunkAt(data, size, i);
  }

  // ---- completeness by counting ----

  /** The indexes 0..n-1. */
  function Range(n: int): (r: set<int>)
    ensures n >= 0 ==> |r| == n
    ensures forall i :: i in r <==> 0 <= i < n
  {
    if n <= 0 then {} else Range(n - 1) + {n - 1}
  }

  lemma SubsetOfSameSize<T>(a: set<T>, b: set<T>)
    requires a <= b && |a| == |b|
    ensures a == b
  {
    assert b == a + (b - a);
    assert |b| == |a| + |b - a|;
  }

  lemma KeysSize<K, V>(m: map<K, V>)
    ensures |m.Keys| == |m|
  {
  }

  /** With every index inside the range, the count reaches the total exactly when no index is missing. */
  lemma CompleteIffNoneMissing(p: Partial)
    requires p.total >= 0
    requires forall i :: i in p.parts ==> 0 <= i < p.total
    ensures |p.parts| <= p.total
    ensures |p.parts| == p.total <==> forall i :: 0 <= i < p.total ==> i in p.parts
    ensures |Range(p.total) - p.parts.Keys| + |p.parts| == p.total
  {
    var all := Range(p.total);
    KeysSize(p.parts);
    assert p.parts.Keys <= all;
    assert all == p.parts.Keys + (all - p.parts.Keys);
    if |p.parts| == p.total {
      SubsetOfSameSize(p.parts.Keys, all);
      forall i | 0 <= i < p.total
        ensures i in p.parts
      {
        assert i in all;
      }
    }
    if forall i :: 0 <= i < p.total ==> i in p.parts {
      assert all == p.parts.Keys;
    }
  }

  lemma CompleteIffKeysFill(p: Partial)
    requires p.total >= 0
    requires forall i :: i in p.parts ==> 0 <= i < p.total
    ensures |p.parts| == p.total <==> p.parts.Keys == Range(p.total)
  {
    CompleteIffNoneMissing(p);
    assert (forall i :: 0 <= i < p.total ==> i in p.parts) <==> Range(p.total) <= p.parts.Keys;
  }
}
