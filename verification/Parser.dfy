/** Frames as protobuf values: 32-bit fields, zero for an absent number, empty for an absent reply. */
module Parser {
  import opened Wrappers
  import opened Messages
  import opened Fragmentation
  import opened Node

  const TWO_32 := 0x1_0000_0000

  /** Conversion to uint32 keeps the low 32 bits. */
  function Uint32(n: int): int {
    n % TWO_32
  }

  datatype PbMsg = PbMsg(
    id: seq<byte>, fromNode: string, timestamp: int, channel: string, replyTo: seq<byte>,
    body: string, seqNo: int, author: string)

  datatype PbFrag = PbFrag(msgId: seq<byte>, idx: int, total: int, data: seq<byte>)

  datatype PbSvec = PbSvec(fromNode: string, vector: map<string, int>)

  datatype PbFrame = NoPayload | PbMsgF(msg: PbMsg) | PbFragF(frag: PbFrag) | PbSvecF(svec: PbSvec)

  function MsgToPb(m: Msg): PbMsg {
    PbMsg(m.id, m.from, Uint32(m.time), m.channel, if m.replyTo.Some? then m.replyTo.value else [],
          m.body, if m.seqNo.Some? then Uint32(m.seqNo.value) else 0, m.author)
  }

  function MsgFromPb(p: PbMsg): Option<Msg> {
    if |p.id| != 6 then None
    else
      Some(Msg(p.id, p.fromNode, p.timestamp, p.channel, if |p.replyTo| == 6 then Some(p.replyTo) else None,
               p.body, if p.seqNo > 0 then Some(p.seqNo) else None, p.author))
  }

  function FragToPb(f: Frag): PbFrag {
    PbFrag(f.id, Uint32(f.idx), Uint32(f.total), f.data)
  }

  function FragFromPb(p: PbFrag): Option<Frag> {
    if |p.msgId| != 6 then None
    else if p.total < 1 || p.total > MAX_FRAGMENTS || p.idx < 0 || p.idx >= p.total then None
    else Some(Frag(p.msgId, p.idx, p.total, p.data))
  }

  function SvecToPb(sender: Callsign, vector: Vector): PbSvec {
    PbSvec(sender, map k | k in vector :: Uint32(vector[k]))
  }

  /** svecToPB: the copying loop over the vector. */
  method SvecVectorToPb(vector: Vector) returns (copy: map<string, int>)
    ensures copy == SvecToPb("", vector).vector
  {
    copy := map[];
    var todo := vector.Keys;
    while todo != {}
      invariant todo <= vector.Keys
      invariant copy.Keys == vector.Keys - todo
      invariant forall k :: k in copy ==> copy[k] == Uint32(vector[k])
      decreases |todo|
    {
      var k :| k in todo;
      copy := copy[k := Uint32(vector[k])];
      todo := todo - {k};
    }
  }

  function ToPb(f: Frame): PbFrame {
    match f
    case MsgF(m) => PbMsgF(MsgToPb(m))
    case FragF(g) => PbFragF(FragToPb(g))
    case SvecF(sender, vector) => PbSvecF(SvecToPb(sender, vector))
  }

  function FromPb(p: PbFrame): Option<Frame> {
    match p
    case NoPayload => None
    case PbMsgF(x) => var m := MsgFromPb(x); if m.Some? then Some(MsgF(m.value)) else None
    case PbFragF(x) => var g := FragFromPb(x); if g.Some? then Some(FragF(g.value)) else None
    case PbSvecF(x) => Some(SvecF(x.fromNode, x.vector))
  }

  predicate FitsUint32(n: int) {
    0 <= n < TWO_32
  }

  /** The frames that the 32-bit fields can hold and the parser accepts. */
  predicate Carried(f: Frame) {
    match f
    case MsgF(m) => FitsUint32(m.time) && (m.seqNo.Some? ==> 1 <= m.seqNo.value < TWO_32)
    case FragF(g) => FragParses(g)
    case SvecF(_, vector) => forall k :: k in vector ==> FitsUint32(vector[k])
  }

  lemma Uint32Same(n: int)
    ensures Uint32(n) == n <==> FitsUint32(n)
    ensures FitsUint32(Uint32(n))
  {
  }

  /** Each field travels under its own name, and the message comes back exactly when its numbers fit. */
  lemma MsgWireIff(m: Msg)
    ensures MsgFromPb(MsgToPb(m)) == Some(m) <==>
              0 <= m.time < 0x1_0000_0000 && (m.seqNo.Some? ==> 1 <= m.seqNo.value < 0x1_0000_0000)
    ensures var p := MsgToPb(m);
            && p.id == m.id && p.fromNode == m.from && p.channel == m.channel && p.body == m.body && p.author == m.author
            && (m.replyTo.Some? ==> p.replyTo == m.replyTo.value)
            && (p.timestamp == m.time <==> 0 <= m.time < 0x1_0000_0000)
            && (p.seqNo == 0 <==> m.seqNo.None? || m.seqNo.value % 0x1_0000_0000 == 0)
  {
    Uint32Same(m.time);
    if m.seqNo.Some? {
      Uint32Same(m.seqNo.value);
    }
  }

  lemma FragWireIff(g: Frag)
    ensures FragFromPb(FragToPb(g)) == Some(g) <==> 1 <= g.total <= 255 && 0 <= g.idx < g.total
    ensures 0 <= g.idx < g.total < 0x1_0000_0000 ==> FragToPb(g) == PbFrag(g.id, g.idx, g.total, g.data)
  {
    Uint32Same(g.idx);
    Uint32Same(g.total);
  }

  lemma SvecWireIff(sender: Callsign, vector: Vector)
    ensures SvecToPb(sender, vector) == PbSvec(sender, vector) <==>
              forall k :: k in vector ==> 0 <= vector[k] < 0x1_0000_0000
  {
    var copy := SvecToPb(sender, vector).vector;
    assert copy.Keys == vector.Keys;
    forall k | k in vector
      ensures copy[k] == vector[k] <==> FitsUint32(vector[k])
    {
      Uint32Same(vector[k]);
    }
    assert copy == vector <==> forall k :: k in vector ==> copy[k] == vector[k];
  }

  /** A frame comes off the wire as it went on exactly when its numbers fit and, for a fragment, the parser takes it. */
  lemma WireIff(f: Frame)
    ensures FromPb(ToPb(f)) == Some(f) <==> Carried(f)
  {
    match f
    case MsgF(m) => MsgWireIff(m);
    case FragF(g) => FragWireIff(g);
    case SvecF(sender, vector) => SvecWireIff(sender, vector);
  }
}
