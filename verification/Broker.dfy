/** The simulated channel: an independent KISS splitter per client, and the partitions between clients. */
module Brokers {
  import opened Wrappers
  import opened Messages
  import opened Kiss

  // ---- splitting a client's stream into raw frames ----

  function RawFrame(content: seq<byte>): seq<byte> {
    [FEND] + content + [FEND]
  }

  function RawFrames(contents: seq<seq<byte>>): seq<seq<byte>> {
    seq(|contents|, i requires 0 <= i < |contents| => RawFrame(contents[i]))
  }

  /** No complete frame is left in the buffer; bytes before its only FEND may be. */
  ghost predicate IsLeftover(buffer: seq<byte>) {
    Scan(Outside, buffer).contents == []
  }

  lemma OneMore(contents: seq<seq<byte>>, content: seq<byte>, rest: seq<seq<byte>>)
    ensures RawFrames(contents + [content]) == RawFrames(contents) + [RawFrame(content)]
    ensures contents + ([content] + rest) == contents + [content] + rest
  {
  }

  /** Cuts every complete frame out of the buffer, delimiters included, and keeps the rest. */
  method SplitKissFrames(buf: seq<byte>) returns (frames: seq<seq<byte>>, rest: seq<byte>)
    ensures frames == RawFrames(Scan(Outside, buf).contents)
    ensures IsLeftover(rest) && Scan(Outside, rest).phase == Scan(Outside, buf).phase
  {
    frames := [];
    ghost var contents: seq<seq<byte>> := [];
    var data := buf;
    while true
      invariant frames == RawFrames(contents)
      invariant Scan(Outside, buf) == Scanned(Scan(Outside, data).phase, contents + Scan(Outside, data).contents)
      decreases |data|
    {
      var start := FindFend(data, 0);
      SkipPlain(data, start);
      if start == |data| {
        assert contents + [] == contents;
        return frames, data;
      }
      var end := FindFend(data, start + 1);
      SplitFound(data, start, end);
      if end == |data| {
        assert contents + [] == contents;
        return frames, data[start..];
      }
      ghost var content := data[start + 1..end];
      assert data[start..end + 1] == RawFrame(content);
      OneMore(contents, content, Scan(Outside, data[end + 1..]).contents);
      contents := contents + [content];
      frames := frames + [data[start..end + 1]];
      data := data[end + 1..];
    }
  }

  /** What is read of a buffer whose first FEND is known: a frame still open, or a frame and the rest. */
  lemma SplitFound(data: seq<byte>, start: nat, end: nat)
    requires start < end <= |data| && data[start] == FEND
    requires Scan(Outside, data) == Scan(Outside, data[start..])
    requires FEND !in data[start + 1..end] && (end < |data| ==> data[end] == FEND)
    ensures end == |data| ==> IsLeftover(data[start..])
    ensures end < |data| ==>
              var after := Scan(Outside, data[end + 1..]);
              Scan(Outside, data) == Scanned(after.phase, [data[start + 1..end]] + after.contents)
  {
    var framed := data[start..];
    assert framed[1..end - start] == data[start + 1..end];
    assert end < |data| ==> framed[end - start + 1..] == data[end + 1..];
    SplitFirst(framed, end - start);
  }

  /** The read loop of one client. */
  class ClientReader {
    var frameBuf: seq<byte>

    constructor ()
      ensures Valid() && State() == Outside
    {
      frameBuf := [];
    }

    ghost predicate Valid()
      reads this
    {
      IsLeftover(frameBuf)
    }

    ghost function State(): Phase
      reads this
    {
      Scan(Outside, frameBuf).phase
    }

    /** One chunk from the client: the frames to broadcast. */
    method Read(chunk: seq<byte>) returns (frames: seq<seq<byte>>)
      requires Valid()
      modifies this
      ensures Valid()
      ensures var r := Scan(old(State()), chunk);
              State() == r.phase && frames == RawFrames(r.contents)
    {
      ScanConcat(Outside, frameBuf, chunk);
      assert [] + Scan(State(), chunk).contents == Scan(State(), chunk).contents;
      frameBuf := frameBuf + chunk;
      frames, frameBuf := SplitKissFrames(frameBuf);
    }
  }

  // ---- the splitter refines the decoder ----

  /** Decoding and filtering raw frames one by one. */
  function DataOfRaw(frames: seq<seq<byte>>): seq<KissFrame> {
    if frames == [] then []
    else
      var f := Decoded(frames[0]);
      (if f.Some? && f.value.command == DATA_FRAME then [f.value] else []) + DataOfRaw(frames[1..])
  }

  /** The raw frames that successive chunks produce. */
  function SplitAll(p: Phase, chunks: seq<seq<byte>>): seq<seq<byte>>
    decreases |chunks|
  {
    if chunks == [] then []
    else
      var r := Scan(p, chunks[0]);
      RawFrames(r.contents) + SplitAll(r.phase, chunks[1..])
  }

  ghost predicate ArePlain(contents: seq<seq<byte>>) {
    forall i :: 0 <= i < |contents| ==> FEND !in contents[i]
  }

  lemma {:induction false} ContentsArePlain(p: Phase, s: seq<byte>)
    requires p.Inside? ==> FEND !in p.content
    ensures ArePlain(Scan(p, s).contents)
    ensures Scan(p, s).phase.Inside? ==> FEND !in Scan(p, s).phase.content
    decreases |s|
  {
    if s != [] {
      if s[0] != FEND {
        ContentsArePlain(if p.Inside? then Inside(p.content + [s[0]]) else Outside, s[1..]);
      } else {
        ContentsArePlain(if p.Outside? then Inside([]) else Outside, s[1..]);
      }
    }
  }

  lemma RawDecodes(content: seq<byte>)
    requires FEND !in content
    ensures Decoded(RawFrame(content)) == DecodeInner(content)
  {
    var d := RawFrame(content)[1..];
    assert d == content + [FEND];
    assert d[..|d| - 1] == content;
  }

  lemma {:induction false} RawData(contents: seq<seq<byte>>)
    requires ArePlain(contents)
    ensures DataOfRaw(RawFrames(contents)) == DataFrames(contents)
  {
    if contents != [] {
      RawDecodes(contents[0]);
      RawData(contents[1..]);
      assert RawFrames(contents)[1..] == RawFrames(contents[1..]);
    }
  }

  lemma {:induction false} SplitAllIsScan(p: Phase, chunks: seq<seq<byte>>)
    ensures SplitAll(p, chunks) == RawFrames(Scan(p, Flat(chunks)).contents)
    decreases |chunks|
  {
    if chunks != [] {
      var r := Scan(p, chunks[0]);
      ScanConcat(p, chunks[0], Flat(chunks[1..]));
      SplitAllIsScan(r.phase, chunks[1..]);
      var later := Scan(r.phase, Flat(chunks[1..])).contents;
      assert RawFrames(r.contents + later) == RawFrames(r.contents) + RawFrames(later);
    }
  }

  /**
    * On every stream, the broker's frames decode to the list that a node's decoder gives, however each of
    * them finds the stream cut into chunks.
    */
  lemma SplitterRefinesDecoder(brokerChunks: seq<seq<byte>>, nodeChunks: seq<seq<byte>>)
    requires Flat(brokerChunks) == Flat(nodeChunks)
    ensures DataOfRaw(SplitAll(Outside, brokerChunks)) == FeedAll(Outside, nodeChunks)
  {
    SplitAllIsScan(Outside, brokerChunks);
    ChunkingInvariant(Outside, nodeChunks);
    ContentsArePlain(Outside, Flat(brokerChunks));
    RawData(Scan(Outside, Flat(brokerChunks)).contents);
  }

  lemma {:induction false} RawStream(contents: seq<seq<byte>>)
    requires ArePlain(contents)
    ensures Scan(Outside, Flat(RawFrames(contents))) == Scanned(Outside, contents)
  {
    var frames := RawFrames(contents);
    if contents != [] {
      RawStream(contents[1..]);
      assert frames[1..] == RawFrames(contents[1..]);
      ScanOne(contents[0], Flat(frames[1..]));
    }
  }

  /**
    * Frames of any clients, written whole one after the other, reach a node as exactly the frames that
    * the broker cut out, and leave the node between frames.
    */
  lemma RelayIsTransparent(contents: seq<seq<byte>>, nodeChunks: seq<seq<byte>>)
    requires ArePlain(contents) && Flat(nodeChunks) == Flat(RawFrames(contents))
    ensures FeedAll(Outside, nodeChunks) == DataOfRaw(RawFrames(contents))
    ensures Scan(Outside, Flat(nodeChunks)).phase == Outside
  {
    RawStream(contents);
    RawData(contents);
    ChunkingInvariant(Outside, nodeChunks);
  }

  // ---- partitions ----

  /** The two groups, or none: a client may be in either, in both, or in neither. */
  datatype Groups = Groups(a: set<int>, b: set<int>)

  predicate Delivers(p: Option<Groups>, from: int, to: int) {
    p.None? || !((from in p.value.a && to in p.value.b) || (from in p.value.b && to in p.value.a))
  }

  class Broker {
    var partition: Option<Groups>

    constructor ()
      ensures partition == None
    {
      partition := None;
    }

    method Partition(groupA: seq<int>, groupB: seq<int>)
      modifies this
      ensures partition == Some(Groups(set x | x in groupA, set x | x in groupB))
    {
      var a: set<int> := {};
      for i := 0 to |groupA|
        invariant a == set x | x in groupA[..i]
      {
        assert groupA[..i + 1] == groupA[..i] + [groupA[i]];
        a := a + {groupA[i]};
      }
      var b: set<int> := {};
      for i := 0 to |groupB|
        invariant b == set x | x in groupB[..i]
      {
        assert groupB[..i + 1] == groupB[..i] + [groupB[i]];
        b := b + {groupB[i]};
      }
      assert groupA[..|groupA|] == groupA && groupB[..|groupB|] == groupB;
      partition := Some(Groups(a, b));
    }

    method Heal()
      modifies this
      ensures partition == None && forall x, y :: Delivers(partition, x, y)
    {
      partition := None;
    }

    method CanDeliver(from: int, to: int) returns (r: bool)
      ensures r == Delivers(partition, from, to)
      ensures !r <==> partition.Some? && ((from in partition.value.a && to in partition.value.b)
                                          || (from in partition.value.b && to in partition.value.a))
    {
      if partition.None? {
        return true;
      }
      var fromInA, toInA := from in partition.value.a, to in partition.value.a;
      var fromInB, toInB := from in partition.value.b, to in partition.value.b;
      if fromInA && toInB {
        return false;
      }
      if fromInB && toInA {
        return false;
      }
      return true;
    }
  }

  /** A chain of clients along which a frame can be relayed. */
  ghost predicate IsRelay(p: Option<Groups>, clients: set<int>, path: seq<int>) {
    && path != []
    && (forall i :: 0 <= i < |path| ==> path[i] in clients)
    && forall i :: 0 < i < |path| ==> Delivers(p, path[i - 1], path[i])
  }

  ghost predicate Relays(p: Option<Groups>, clients: set<int>, from: int, to: int) {
    exists path :: IsRelay(p, clients, path) && path[0] == from && path[|path| - 1] == to
  }

  predicate IsBridge(g: Groups, c: int) {
    c !in g.a && c !in g.b
  }

  /** Without a bridge, a chain that starts in group A never enters group B. */
  lemma {:induction false} StaysOutOfB(g: Groups, clients: set<int>, path: seq<int>, k: nat)
    requires IsRelay(Some(g), clients, path) && k < |path|
    requires path[0] in g.a && forall c :: c in clients ==> !IsBridge(g, c)
    ensures path[k] in g.a
    ensures k > 0 ==> path[k] !in g.b && path[0] !in g.b
  {
    assert path[k] in clients && !IsBridge(g, path[k]);
    if k > 0 {
      StaysOutOfB(g, clients, path, k - 1);
      assert Delivers(Some(g), path[k - 1], path[k]);
    }
  }

  /** Relaying crosses a partition exactly when some client is in neither group. */
  lemma CrossesIffBridge(g: Groups, clients: set<int>, from: int, to: int)
    requires from in clients && to in clients && from != to && from in g.a && to in g.b
    ensures Relays(Some(g), clients, from, to) <==> exists c :: c in clients && IsBridge(g, c)
  {
    if c :| c in clients && IsBridge(g, c) {
      var path := [from, c, to];
      assert IsRelay(Some(g), clients, path) && path[0] == from && path[|path| - 1] == to;
    } else if Relays(Some(g), clients, from, to) {
      var path :| IsRelay(Some(g), clients, path) && path[0] == from && path[|path| - 1] == to;
      StaysOutOfB(g, clients, path, |path| - 1);
    }
  }
}
