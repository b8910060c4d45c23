/** The messages table with the counters the store keeps beside it. */
module Tables {
  import opened Wrappers
  import opened Messages
  import opened VectorClock
  import opened Node

  datatype ChannelRow = ChannelRow(messageCount: int, uniqueNodes: int)

  datatype PeerRow = PeerRow(messageCount: int, syncCount: int)

  datatype TableState = TableState(messages: Store, channels: map<string, ChannelRow>, peers: map<Callsign, PeerRow>)

  const EMPTY_TABLES := TableState(map[], map[], map[])

  // ---- counting over the messages table ----

  function InChannel(messages: Store, channel: string): set<MsgId> {
    set id | id in messages && messages[id].channel == channel
  }

  function SendersIn(messages: Store, channel: string): set<Callsign> {
    set id | id in messages && messages[id].channel == channel :: messages[id].from
  }

  function SentBy(messages: Store, c: Callsign): set<MsgId> {
    set id | id in messages && messages[id].from == c
  }

  // ---- operations ----

  /** updateChannelStats, after the row is in the table. */
  function BumpChannel(channels: map<string, ChannelRow>, messages: Store, channel: string): map<string, ChannelRow> {
    var count := if channel in channels then channels[channel].messageCount + 1 else 1;
    channels[channel := ChannelRow(count, |SendersIn(messages, channel)|)]
  }

  /** updateNodeStats for a message. */
  function BumpPeer(peers: map<Callsign, PeerRow>, c: Callsign): map<Callsign, PeerRow> {
    peers[c := if c in peers then peers[c].(messageCount := peers[c].messageCount + 1) else PeerRow(1, 0)]
  }

  /** updateNodeStats for a sync. */
  function BumpSync(peers: map<Callsign, PeerRow>, c: Callsign): map<Callsign, PeerRow> {
    peers[c := if c in peers then peers[c].(syncCount := peers[c].syncCount + 1) else PeerRow(0, 1)]
  }

  function AddRow(t: TableState, m: Msg): TableState {
    var messages := t.messages[m.id := m];
    TableState(messages, BumpChannel(t.channels, messages, m.channel), BumpPeer(t.peers, m.from))
  }

  predicate Rejected(t: TableState, m: Msg) {
    m.id in t.messages || SeqTaken(t.messages, m)
  }

  /** SaveMessage: an ignored insert leaves the counters alone. */
  function Save(t: TableState, m: Msg): TableState {
    if Rejected(t, m) then t else AddRow(t, m)
  }

  function NewChannel(t: TableState, name: string): TableState {
    if name in t.channels then t else t.(channels := t.channels[name := ChannelRow(0, 0)])
  }

  datatype DeleteError = HasMessages | NotFound

  function RemoveChannel(t: TableState, name: string): Result<TableState, DeleteError> {
    if |InChannel(t.messages, name)| > 0 then Err(HasMessages)
    else if name !in t.channels then Err(NotFound)
    else Ok(t.(channels := t.channels - {name}))
  }

  // ---- the counters agree with recomputation ----

  ghost predicate ChannelAgrees(t: TableState, name: string)
    requires name in t.channels
  {
    t.channels[name] == ChannelRow(|InChannel(t.messages, name)|, |SendersIn(t.messages, name)|)
  }

  ghost predicate PeerAgrees(t: TableState, c: Callsign)
    requires c in t.peers
  {
    t.peers[c].messageCount == |SentBy(t.messages, c)|
  }

  /** The row is stored under its id, and its channel and sender have rows. */
  ghost predicate RowHasRows(t: TableState, id: MsgId)
    requires id in t.messages
  {
    t.messages[id].id == id && t.messages[id].channel in t.channels && t.messages[id].from in t.peers
  }

  /** The unique index on (from_node, seq). */
  ghost predicate Indexed(messages: Store, a: MsgId, b: MsgId)
    requires a in messages && b in messages
  {
    a == b || messages[a].seqNo.None? || messages[a].from != messages[b].from || messages[a].seqNo != messages[b].seqNo
  }

  ghost predicate Agrees(t: TableState) {
    && (forall name {:trigger ChannelAgrees(t, name)} :: name in t.channels ==> ChannelAgrees(t, name))
    && (forall c {:trigger PeerAgrees(t, c)} :: c in t.peers ==> PeerAgrees(t, c))
    && (forall id {:trigger RowHasRows(t, id)} :: id in t.messages ==> RowHasRows(t, id))
    && (forall a, b {:trigger Indexed(t.messages, a, b)} :: a in t.messages && b in t.messages ==> Indexed(t.messages, a, b))
  }

  lemma RowsUnderTheirIds(t: TableState)
    requires Agrees(t)
    ensures forall id :: id in t.messages ==> t.messages[id].id == id
  {
    forall id | id in t.messages
      ensures t.messages[id].id == id
    {
      assert RowHasRows(t, id);
    }
  }

  lemma AddRowSets(messages: Store, m: Msg, name: string, c: Callsign)
    requires m.id !in messages
    ensures var more := messages[m.id := m];
            && InChannel(more, name) == InChannel(messages, name) + (if m.channel == name then {m.id} else {})
            && SendersIn(more, name) == SendersIn(messages, name) + (if m.channel == name then {m.from} else {})
            && SentBy(more, c) == SentBy(messages, c) + (if m.from == c then {m.id} else {})
  {
    var more := messages[m.id := m];
    forall x | x in SendersIn(messages, name)
      ensures x in SendersIn(more, name)
    {
      var id :| id in messages && messages[id].channel == name && messages[id].from == x;
      assert id in more && more[id] == messages[id];
    }
    if m.channel == name {
      assert m.id in more && more[m.id] == m;
      assert m.from in SendersIn(more, name);
    }
  }

  lemma ChannelAfterAdd(t: TableState, m: Msg, name: string)
    requires Agrees(t) && !Rejected(t, m) && name in AddRow(t, m).channels
    ensures ChannelAgrees(AddRow(t, m), name)
  {
    AddRowSets(t.messages, m, name, m.from);
    if name in t.channels {
      assert ChannelAgrees(t, name);
    } else {
      NoRowNoMessages(t, name, m.from);
    }
  }

  lemma PeerAfterAdd(t: TableState, m: Msg, c: Callsign)
    requires Agrees(t) && !Rejected(t, m) && c in AddRow(t, m).peers
    ensures PeerAgrees(AddRow(t, m), c)
  {
    AddRowSets(t.messages, m, m.channel, c);
    if c in t.peers {
      assert PeerAgrees(t, c);
    } else {
      NoRowNoMessages(t, m.channel, c);
    }
  }

  /** Without a row of its own, a channel or a sender has no messages. */
  lemma NoRowNoMessages(t: TableState, name: string, c: Callsign)
    requires Agrees(t)
    ensures name !in t.channels ==> InChannel(t.messages, name) == {} && SendersIn(t.messages, name) == {}
    ensures c !in t.peers ==> SentBy(t.messages, c) == {}
  {
    assert forall id :: id in t.messages ==> RowHasRows(t, id);
  }

  lemma AddRowAgrees(t: TableState, m: Msg)
    requires Agrees(t) && !Rejected(t, m)
    ensures Agrees(AddRow(t, m))
  {
    var u := AddRow(t, m);
    forall name | name in u.channels
      ensures ChannelAgrees(u, name)
    {
      ChannelAfterAdd(t, m, name);
    }
    forall c | c in u.peers
      ensures PeerAgrees(u, c)
    {
      PeerAfterAdd(t, m, c);
    }
    forall id | id in u.messages
      ensures RowHasRows(u, id)
    {
      if id in t.messages {
        assert RowHasRows(t, id);
      }
    }
    forall a, b | a in u.messages && b in u.messages
      ensures Indexed(u.messages, a, b)
    {
      if a in t.messages && b in t.messages {
        assert Indexed(t.messages, a, b);
      }
    }
  }

  /** A channel in use cannot be deleted, and deleting an unused one leaves the counters right. */
  lemma RemoveChannelAgrees(t: TableState, name: string)
    requires Agrees(t)
    ensures var r := RemoveChannel(t, name);
            && (r.Ok? ==> Agrees(r.value) && r.value == t.(channels := t.channels - {name}))
            && (r == Err(HasMessages) <==> exists id :: id in t.messages && t.messages[id].channel == name)
            && (r == Err(NotFound) <==> name !in t.channels)
  {
    assert forall id :: id in t.messages ==> RowHasRows(t, id);
    if id :| id in t.messages && t.messages[id].channel == name {
      assert id in InChannel(t.messages, name);
    } else {
      assert InChannel(t.messages, name) == {};
      var r := RemoveChannel(t, name);
      if r.Ok? {
        SameMessagesAgree(t, r.value);
      }
    }
  }

  /** Changing rows other than counters, and dropping or adding unused rows, keeps the agreement. */
  lemma SameMessagesAgree(t: TableState, u: TableState)
    requires Agrees(t) && u.messages == t.messages
    requires forall name :: name in u.channels ==>
               if name in t.channels then u.channels[name] == t.channels[name]
               else u.channels[name] == ChannelRow(0, 0)
    requires forall c :: c in u.peers ==>
               u.peers[c].messageCount == if c in t.peers then t.peers[c].messageCount else 0
    requires forall id :: id in t.messages ==> t.messages[id].channel in u.channels && t.messages[id].from in u.peers
    ensures Agrees(u)
  {
    forall name | name in u.channels
      ensures ChannelAgrees(u, name)
    {
      if name in t.channels {
        assert ChannelAgrees(t, name);
      } else {
        NoRowNoMessages(t, name, "");
      }
    }
    forall c | c in u.peers
      ensures PeerAgrees(u, c)
    {
      if c in t.peers {
        assert PeerAgrees(t, c);
      } else {
        NoRowNoMessages(t, "", c);
      }
    }
    forall id | id in u.messages
      ensures RowHasRows(u, id)
    {
      assert RowHasRows(t, id);
    }
    assert forall a, b :: a in u.messages && b in u.messages ==> Indexed(t.messages, a, b);
  }

  // ---- runs ----

  datatype Change = Saved(m: Msg) | Synced(c: Callsign) | Created(name: string) | Deleted(name: string)

  function Apply(t: TableState, x: Change): TableState {
    match x
    case Saved(m) => Save(t, m)
    case Synced(c) => t.(peers := BumpSync(t.peers, c))
    case Created(name) => NewChannel(t, name)
    case Deleted(name) => if RemoveChannel(t, name).Ok? then RemoveChannel(t, name).value else t
  }

  function ApplyAll(t: TableState, xs: seq<Change>): TableState
    decreases |xs|
  {
    if xs == [] then t else ApplyAll(Apply(t, xs[0]), xs[1..])
  }

  lemma ApplyAgrees(t: TableState, x: Change)
    requires Agrees(t)
    ensures Agrees(Apply(t, x))
    ensures SubStore(t.messages, Apply(t, x).messages)
  {
    match x
    case Saved(m) =>
      if !Rejected(t, m) {
        AddRowAgrees(t, m);
      }
    case Deleted(name) =>
      RemoveChannelAgrees(t, name);
    case _ =>
      assert forall id :: id in t.messages ==> RowHasRows(t, id);
      SameMessagesAgree(t, Apply(t, x));
  }

  /**
    * After any sequence of saves, ignored saves, syncs, channel creations and deletions, every
    * counter equals the count over the messages table, every used channel and node has a row, and
    * no message row was ever lost or renumbered.
    */
  lemma {:induction false} CountersAlwaysAgree(t: TableState, xs: seq<Change>)
    requires Agrees(t)
    ensures Agrees(ApplyAll(t, xs)) && SubStore(t.messages, ApplyAll(t, xs).messages)
    decreases |xs|
  {
    if xs != [] {
      ApplyAgrees(t, xs[0]);
      CountersAlwaysAgree(Apply(t, xs[0]), xs[1..]);
    }
  }

  /** The advertised clock of a table never decreases, over any such sequence. */
  lemma ClockNeverDecreases(t: TableState, xs: seq<Change>, origin: Callsign)
    requires Agrees(t)
    ensures ClockAt(t.messages, origin) <= ClockAt(ApplyAll(t, xs).messages, origin)
  {
    CountersAlwaysAgree(t, xs);
    ClockMonotone(t.messages, ApplyAll(t, xs).messages, origin);
  }

  function SyncCount(t: TableState, c: Callsign): int {
    if c in t.peers then t.peers[c].syncCount else 0
  }

  function SyncsOf(xs: seq<Change>, c: Callsign): nat {
    if xs == [] then 0 else (if xs[0] == Synced(c) then 1 else 0) + SyncsOf(xs[1..], c)
  }

  /** A node's sync count is the number of clocks received from it, over any sequence of changes. */
  lemma {:induction false} SyncsAreCounted(t: TableState, xs: seq<Change>, c: Callsign)
    ensures SyncCount(ApplyAll(t, xs), c) == SyncCount(t, c) + SyncsOf(xs, c)
    decreases |xs|
  {
    if xs != [] {
      SyncsAreCounted(Apply(t, xs[0]), xs[1..], c);
    }
  }
}
