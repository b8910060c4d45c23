/** Frames, messages and the codec that the layers share. */
module Messages {
  import opened Wrappers

  newtype byte = b: int | 0 <= b < 256

  /** A message id is six raw bytes. */
  type MsgId = b: seq<byte> | |b| == 6 witness [0, 0, 0, 0, 0, 0]

  type Callsign = string

  /** A MSG frame. Times are whole seconds; an absent author is the empty string. */
  datatype Msg = Msg(
    id: MsgId,
    from: Callsign,
    time: int,
    channel: string,
    replyTo: Option<MsgId>,
    body: string,
    seqNo: Option<int>,
    author: string)

  /** A FRAG frame. */
  datatype Frag = Frag(id: MsgId, idx: int, total: int, data: seq<byte>)

  type Vector = map<Callsign, int>

  datatype Frame =
    | MsgF(msg: Msg)
    | FragF(frag: Frag)
    | SvecF(sender: Callsign, vector: Vector)

  /** The serializer of a bare message, and its parser. */
  datatype Codec = Codec(encode: Msg -> seq<byte>, decode: seq<byte> -> Option<Msg>)

  /** The messages table: rows by primary key. */
  type Store = map<MsgId, Msg>

  /** Every row of a is a row of b. */
  ghost predicate SubStore(a: Store, b: Store) {
    forall id :: id in a ==> id in b && b[id] == a[id]
  }
}
