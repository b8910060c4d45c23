/** The layers put together: frames of a run, through protobuf, AX.25 and KISS, and back. */
module Stack {
  import opened Wrappers
  import opened Messages
  import opened Node
  import opened Gossip
  import opened Frames
  import opened Parser
  import opened Rows
  import opened Kiss
  import opened Direwolf

  /** The protobuf serializer and its parser. */
  datatype Wire = Wire(marshal: PbFrame -> seq<byte>, unmarshal: seq<byte> -> Option<PbFrame>)

  function Encode(w: Wire, f: Frame): seq<byte> {
    w.marshal(ToPb(f))
  }

  function Decode(w: Wire, data: seq<byte>): Option<Frame> {
    var p := w.unmarshal(data);
    if p.None? then None else FromPb(p.value)
  }

  /** What the frame handler makes of the payloads it is called with; those that do not decode are dropped. */
  function DecodeAll(w: Wire, payloads: seq<seq<byte>>): seq<Frame> {
    if payloads == [] then []
    else
      var f := Decode(w, payloads[0]);
      (if f.Some? then [f.value] else []) + DecodeAll(w, payloads[1..])
  }

  /** Each burst carries, from some station and behind some noise, one of the frames. */
  ghost predicate Carry(w: Wire, bursts: seq<Burst>, fs: seq<Frame>) {
    |bursts| == |fs| && forall i :: 0 <= i < |fs| ==> bursts[i].info == Encode(w, fs[i])
  }

  lemma {:induction false} InfosDecode(w: Wire, bursts: seq<Burst>, fs: seq<Frame>)
    requires Carry(w, bursts, fs) && forall f :: f in fs ==> Decode(w, Encode(w, f)) == Some(f)
    ensures DecodeAll(w, Infos(bursts)) == fs
  {
    if fs != [] {
      assert fs[0] in fs && forall f :: f in fs[1..] ==> f in fs;
      InfosDecode(w, bursts[1..], fs[1..]);
      assert Infos(bursts)[1..] == Infos(bursts[1..]);
      assert fs == [fs[0]] + fs[1..];
    }
  }

  /**
    * The whole stack. Frames in the air of a reachable network, other than fragments of a post that does not fit, marshalled,
    * sent by any stations in any order, with FEND-free noise between them and the stream cut into any chunks, come out
    * of the receiver as exactly these frames, in order.
    */
  lemma FramesCrossTheStack(cfg: Config, tt: TimeText, s: Net, w: Wire, fs: seq<Frame>, bursts: seq<Burst>,
                            tail: seq<byte>, chunks: seq<seq<byte>>)
    requires Reachable(cfg, s) && WellFormed(tt, s)
    requires forall f :: f in fs ==> f in s.air && (f.FragF? ==> f.frag.id in s.posted && Fits(cfg, s.posted[f.frag.id]))
    requires forall f :: f in fs ==> w.unmarshal(w.marshal(ToPb(f))) == Some(ToPb(f))
    requires Carry(w, bursts, fs) && forall b :: b in bursts ==> FEND !in b.noise && IsSent(b)
    requires FEND !in tail && Flat(chunks) == StreamOf(bursts) + tail
    ensures DecodeAll(w, FeedPayloads(Outside, chunks)) == fs
  {
    forall f | f in fs
      ensures Decode(w, Encode(w, f)) == Some(f)
    {
      SentFramesArriveAsSent(cfg, tt, s, f);
    }
    EndToEnd(bursts, tail, chunks);
    InfosDecode(w, bursts, fs);
  }
}
