/** The database: message table, counters, seen cache and transmission queue, updated in place. */
module Storage {
  import opened Wrappers
  import opened Messages
  import opened VectorClock
  import opened Node
  import opened Tables
  import opened TransmissionQueue

  datatype SeenRow = SeenRow(seenAt: int, rebroadcast: bool)

  class Database {
    var messages: Store
    var channels: map<string, ChannelRow>
    var peers: map<Callsign, PeerRow>
    var seen: map<SeenKey, SeenRow>
    var queue: Queue
    var lastId: int

    constructor ()
      ensures Valid() && View() == EMPTY_TABLES && seen == map[] && queue == map[]
    {
      messages, channels, peers := map[], map[], map[];
      seen := map[];
      queue, lastId := map[], 0;
    }

    ghost function View(): TableState
      reads `messages, `channels, `peers
    {
      TableState(messages, channels, peers)
    }

    ghost predicate Valid()
      reads this
    {
      TablesValid() && QueueValid()
    }

    ghost predicate TablesValid()
      reads `messages, `channels, `peers
    {
      Agrees(View())
    }

    ghost predicate QueueValid()
      reads `queue, `lastId
    {
      forall id :: id in queue ==> id <= lastId
    }

    /** Opening an existing file recreates the seen cache and keeps every other table. */
    method Reopen()
      modifies `seen
      ensures seen == map[]
    {
      seen := map[];
    }

    // ---- messages and counters ----

    method UpdateChannelStats(channel: string)
      modifies `channels
      ensures channels == BumpChannel(old(channels), messages, channel)
    {
      if channel in channels {
        channels := channels[channel := channels[channel].(messageCount := channels[channel].messageCount + 1)];
      } else {
        channels := channels[channel := ChannelRow(1, 1)];
      }
      channels := channels[channel := channels[channel].(uniqueNodes := |SendersIn(messages, channel)|)];
    }

    method UpdateNodeStats(callsign: Callsign, sync: bool)
      modifies `peers
      ensures peers == if sync then BumpSync(old(peers), callsign) else BumpPeer(old(peers), callsign)
    {
      if sync {
        if callsign in peers {
          peers := peers[callsign := peers[callsign].(syncCount := peers[callsign].syncCount + 1)];
        } else {
          peers := peers[callsign := PeerRow(0, 1)];
        }
      } else {
        if callsign in peers {
          peers := peers[callsign := peers[callsign].(messageCount := peers[callsign].messageCount + 1)];
        } else {
          peers := peers[callsign := PeerRow(1, 0)];
        }
      }
    }

    /** INSERT OR IGNORE, with the counters bumped only when a row was inserted. */
    method SaveMessage(m: Msg) returns (isNew: bool)
      requires TablesValid()
      modifies `messages, `channels, `peers
      ensures TablesValid() && View() == Save(old(View()), m)
      ensures isNew <==> !(m.id in old(messages) || SeqTaken(old(messages), m))
      ensures messages == if isNew then old(messages)[m.id := m] else old(messages)
    {
      ApplyAgrees(View(), Saved(m));
      if m.id in messages || SeqTaken(messages, m) {
        return false;
      }
      messages := messages[m.id := m];
      UpdateChannelStats(m.channel);
      UpdateNodeStats(m.from, false);
      return true;
    }

    /** SELECT COALESCE(MAX(seq), 0) + 1 over the origin's rows. */
    method SelectNextSeq(origin: Callsign) returns (next: int)
      ensures next == NextSeq(messages, origin)
    {
      var todo := messages.Keys;
      var top := None;
      while todo != {}
        invariant todo <= messages.Keys
        invariant top.Some? ==> top.value in SeqsOf(messages, origin)
        invariant forall id :: id in messages.Keys - todo && messages[id].from == origin && messages[id].seqNo.Some?
                    ==> top.Some? && messages[id].seqNo.value <= top.value
        decreases |todo|
      {
        var id :| id in todo;
        var m := messages[id];
        if m.from == origin && m.seqNo.Some? && (top.None? || top.value < m.seqNo.value) {
          top := m.seqNo;
          assert top.value in SeqsOf(messages, origin);
        }
        todo := todo - {id};
      }
      ghost var seqs := SeqsOf(messages, origin);
      next := (if top.Some? then top.value else 0) + 1;
      assert seqs != {} ==> IsMax(seqs, MaxOf(seqs));
    }

    /**
      * A plain INSERT under the next sequence number. It fails exactly on a stored id, changing nothing; otherwise the
      * row is the client's draft under this origin, numbered one above all its rows.
      */
    method SaveMessageWithSeq(draft: Draft, origin: Callsign) returns (seqNo: Option<int>)
      requires TablesValid()
      modifies `messages, `channels, `peers
      ensures TablesValid()
      ensures var m := Compose(NodeState(old(messages), {}, {}, map[]), origin, draft);
              && View() == Save(old(View()), m)
              && seqNo == if Rejected(old(View()), m) then None else m.seqNo
      ensures seqNo.None? <==> draft.id in old(messages)
      ensures seqNo.None? ==> View() == old(View())
      ensures seqNo.Some? ==>
                && draft.id in messages && messages == old(messages)[draft.id := messages[draft.id]]
                && IsDraft(messages[draft.id], draft, origin) && messages[draft.id].seqNo == seqNo
                && IsNextNumber(old(messages), origin, seqNo.value)
    {
      var next := SelectNextSeq(origin);
      var m := Msg(draft.id, origin, draft.time, draft.channel, draft.replyTo, draft.body, Some(next), draft.author);
      NextNumber(messages, origin);
      NextNumberIsFree(messages, m);
      if m.id in messages || SeqTaken(messages, m) {
        return None;
      }
      var isNew := SaveMessage(m);
      return Some(next);
    }

    /** SELECT from_node, seq ... ORDER BY: only the order of the numbers is used below. */
    method SelectSeqs() returns (rows: seq<(Callsign, int)>)
      ensures AreSeqRows(messages, rows) && SortedRows(rows)
    {
      rows := [];
      var todo := messages.Keys;
      while todo != {}
        invariant todo <= messages.Keys
        invariant forall r :: r in rows <==> exists id :: id in messages.Keys - todo && IsSeqRow(messages[id], r)
        invariant SortedRows(rows)
        decreases |todo|
      {
        var id :| id in todo;
        if messages[id].seqNo.Some? {
          rows := InsertSorted(rows, (messages[id].from, messages[id].seqNo.value));
        }
        assert forall other :: other in messages.Keys - (todo - {id}) <==> other == id || other in messages.Keys - todo;
        todo := todo - {id};
      }
    }

    /** The contiguous prefix of every origin, grown row by row. */
    method GetVectorClock() returns (clock: Vector)
      ensures clock == Clock(messages)
    {
      var rows := SelectSeqs();
      var seqsByNode := GroupByNode(rows);
      clock := map[];
      var todo := seqsByNode.Keys;
      while todo != {}
        invariant todo <= seqsByNode.Keys
        invariant forall c :: c in clock <==> c in seqsByNode.Keys - todo && ClockAt(messages, c) > 0
        invariant forall c :: c in clock ==> clock[c] == ClockAt(messages, c)
        decreases |todo|
      {
        var node :| node in todo;
        GroupedNumbers(messages, rows, node, seqsByNode[node]);
        var contiguous := ContiguousPrefix(seqsByNode[node], SeqsOf(messages, node));
        if contiguous > 0 {
          clock := clock[node := contiguous];
        }
        todo := todo - {node};
      }
      ClockFromGroups(messages, rows, seqsByNode, clock);
    }

    /** The rows of one origin above a number, in order. */
    method GetMessagesAfterSeq(origin: Callsign, after: int) returns (rows: seq<Msg>)
      requires TablesValid()
      ensures forall m :: m in rows <==>
                m.id in messages && messages[m.id] == m && m.from == origin && m.seqNo.Some? && m.seqNo.value > after
      ensures forall i :: 0 <= i < |rows| ==> rows[i].seqNo.Some?
      ensures forall i, j :: 0 <= i < j < |rows| ==> rows[i].seqNo.value < rows[j].seqNo.value
    {
      rows := [];
      var todo := messages.Keys;
      while todo != {}
        invariant todo <= messages.Keys
        invariant forall m :: m in rows <==> m.id in messages.Keys - todo && messages[m.id] == m && Selected(m, origin, after)
        invariant Ascending(rows)
        decreases |todo|
      {
        var id :| id in todo;
        var m := messages[id];
        assert RowHasRows(View(), id);
        if Selected(m, origin, after) {
          forall i | 0 <= i < |rows|
            ensures rows[i].seqNo.value != m.seqNo.value
          {
            assert rows[i] in rows;
            assert Indexed(messages, rows[i].id, id);
          }
          rows := InsertBySeq(rows, m);
        }
        todo := todo - {id};
      }
    }

    method UpdateNodeSync(callsign: Callsign)
      requires TablesValid()
      modifies `peers
      ensures TablesValid() && View() == Apply(old(View()), Synced(callsign))
    {
      ApplyAgrees(View(), Synced(callsign));
      UpdateNodeStats(callsign, true);
    }

    method CreateChannel(name: string)
      requires TablesValid()
      modifies `channels
      ensures TablesValid() && View() == NewChannel(old(View()), name)
    {
      ApplyAgrees(View(), Created(name));
      if name !in channels {
        channels := channels[name := ChannelRow(0, 0)];
      }
    }

    method DeleteChannel(name: string) returns (r: Result<(), DeleteError>)
      requires TablesValid()
      modifies `channels
      ensures TablesValid()
      ensures View() == Apply(old(View()), Deleted(name))
      ensures r == if exists id :: id in messages && messages[id].channel == name then Err(HasMessages)
                   else if name !in old(channels) then Err(NotFound) else Ok(())
      ensures channels == if r.Ok? then old(channels) - {name} else old(channels)
    {
      ApplyAgrees(View(), Deleted(name));
      RemoveChannelAgrees(View(), name);
      var count := |InChannel(messages, name)|;
      if count > 0 {
        return Err(HasMessages);
      }
      if name !in channels {
        return Err(NotFound);
      }
      channels := channels - {name};
      return Ok(());
    }

    // ---- seen cache ----

    /** INSERT OR REPLACE. */
    method MarkSeen(key: SeenKey, rebroadcast: bool, now: int)
      modifies `seen
      ensures seen == old(seen)[key := SeenRow(now, rebroadcast)]
    {
      seen := seen[key := SeenRow(now, rebroadcast)];
    }

    /** INSERT OR IGNORE: new exactly when the key was absent, and then never new again while it stays. */
    method MarkSeenIfNew(key: SeenKey, now: int) returns (isNew: bool)
      modifies `seen
      ensures isNew <==> key !in old(seen)
      ensures seen == if isNew then old(seen)[key := SeenRow(now, false)] else old(seen)
    {
      if key in seen {
        return false;
      }
      seen := seen[key := SeenRow(now, false)];
      return true;
    }

    method CleanupSeenCache(now: int, ttl: int)
      modifies `seen
      ensures forall key :: key in seen <==> key in old(seen) && old(seen)[key].seenAt >= now - ttl
      ensures forall key :: key in seen ==> seen[key] == old(seen)[key]
    {
      seen := map key | key in seen && seen[key].seenAt >= now - ttl :: seen[key];
    }

    // ---- transmission queue ----

    method QueueTransmission(frame: Frame, now: int, delay: int)
      requires QueueValid()
      modifies `queue, `lastId
      ensures QueueValid()
      ensures lastId == old(lastId) + 1 && queue == old(queue)[lastId := NewRow(frame, now, delay)] && lastId !in old(queue)
      ensures queue[lastId].createdAt == now && queue[lastId].scheduledAt == if delay >= 0 then now + delay else now
    {
      var scheduled := now + delay;
      if scheduled < now {
        scheduled := now;
      }
      lastId := lastId + 1;
      queue := queue[lastId := QueueRow(frame, Pending, 0, now, scheduled)];
    }

    /** Picks an earliest-scheduled due row and marks it; nothing when no row is due. */
    method GetNextTransmission(now: int) returns (item: Option<int>)
      requires QueueValid()
      modifies `queue
      ensures QueueValid()
      ensures item.None? ==>
                && queue == old(queue)
                && forall id :: id in queue ==> !(queue[id].status.Pending? && queue[id].scheduledAt <= now)
      ensures item.Some? ==>
                var id := item.value;
                && id in old(queue) && old(queue)[id].status.Pending? && old(queue)[id].scheduledAt <= now
                && (forall other :: other in old(queue) && old(queue)[other].status.Pending? ==>
                      old(queue)[id].scheduledAt <= old(queue)[other].scheduledAt)
                && queue == old(queue)[id := old(queue)[id].(status := Transmitting)]
    {
      item := None;
      var todo := queue.Keys;
      while todo != {}
        invariant todo <= queue.Keys
        invariant item.None? ==> forall id :: id in queue.Keys - todo ==> !Due(queue, id, now)
        invariant item.Some? ==> Due(queue, item.value, now)
                                 && forall id :: id in queue.Keys - todo && Due(queue, id, now) ==>
                                      queue[item.value].scheduledAt <= queue[id].scheduledAt
        decreases |todo|
      {
        assert (forall x :: x !in todo) ==> todo == {};
        var id :| id in todo;
        todo := todo - {id};
        if Due(queue, id, now) && (item.None? || queue[id].scheduledAt < queue[item.value].scheduledAt) {
          item := Some(id);
        }
      }
      forall id | id in queue
        ensures Due(queue, id, now) ==> item.Some? && queue[item.value].scheduledAt <= queue[id].scheduledAt
      {
        assert id in queue.Keys - todo;
      }
      if item.Some? {
        queue := queue[item.value := queue[item.value].(status := Transmitting)];
      }
    }

    method MarkTransmitted(id: int)
      requires QueueValid()
      modifies `queue
      ensures QueueValid() && queue == Succeed(old(queue), id)
      ensures queue == if id in old(queue) then old(queue)[id := old(queue)[id].(status := Sent)] else old(queue)
    {
      if id in queue {
        queue := queue[id := queue[id].(status := Sent)];
      }
    }

    method MarkTransmissionFailed(id: int, maxRetries: int, now: int)
      requires QueueValid()
      modifies `queue
      ensures QueueValid() && queue == Fail(old(queue), id, maxRetries, now)
      ensures id in queue ==> queue[id].attempts == old(queue)[id].attempts + 1
      ensures id in queue && queue[id].attempts >= maxRetries ==>
                queue[id].status.Failed? && queue[id].scheduledAt == old(queue)[id].scheduledAt
      ensures id in queue && queue[id].attempts < maxRetries ==>
                queue[id].status.Pending? && queue[id].scheduledAt == now + 60
    {
      var attempts := if id in queue then queue[id].attempts else 0;
      if id in queue {
        if attempts >= maxRetries - 1 {
          queue := queue[id := queue[id].(status := Failed, attempts := attempts + 1)];
        } else {
          queue := queue[id := queue[id].(status := Pending, attempts := attempts + 1, scheduledAt := now + 60)];
        }
      }
    }

    /** Three statements in turn: old sent rows go, stale transmitting rows are reset, old failed rows go. */
    method CleanupTransmissionQueue(now: int)
      requires QueueValid()
      modifies `queue
      ensures QueueValid() && queue == Cleanup(old(queue), now)
      ensures forall id :: id in queue <==> id in old(queue) && !IsOldRow(old(queue)[id], now)
      ensures forall id :: id in queue ==> queue[id] == WithoutStale(old(queue)[id], now)
    {
      ghost var q0 := queue;
      queue := map id | id in queue && !(queue[id].status.Sent? && queue[id].createdAt < now - 3600) :: queue[id];
      ghost var q1 := queue;
      queue := map id | id in queue ::
        if queue[id].status.Transmitting? && queue[id].scheduledAt < now - 60 then queue[id].(status := Pending) else queue[id];
      ghost var q2 := queue;
      queue := map id | id in queue && !(queue[id].status.Failed? && queue[id].createdAt < now - 86400) :: queue[id];
      forall id
        ensures id in queue <==> id in Cleanup(q0, now)
        ensures id in queue ==> queue[id] == Cleanup(q0, now)[id]
      {
        assert id in q1 ==> id in q2;
      }
      assert queue.Keys == Cleanup(q0, now).Keys;
      CleanupIs(q0, now);
    }
  }

  // ---- helpers of the queries ----

  /** The message is the client's draft, under the node's own callsign. */
  ghost predicate IsDraft(m: Msg, d: Draft, origin: Callsign) {
    && m.id == d.id && m.from == origin && m.time == d.time && m.channel == d.channel
    && m.replyTo == d.replyTo && m.body == d.body && m.author == d.author
  }

  ghost predicate HasNumber(messages: Store, id: MsgId, origin: Callsign, n: int) {
    id in messages && messages[id].from == origin && messages[id].seqNo == Some(n)
  }

  /** One above all of the origin's numbers: above a number it has, or 1 if it has none. */
  ghost predicate IsNextNumber(messages: Store, origin: Callsign, n: int) {
    && (forall id, k :: HasNumber(messages, id, origin, k) ==> k < n)
    && if exists id, k :: HasNumber(messages, id, origin, k)
       then exists id, k :: HasNumber(messages, id, origin, k) && k == n - 1
       else n == 1
  }

  lemma NextNumberIsFree(messages: Store, m: Msg)
    requires m.seqNo.Some? && IsNextNumber(messages, m.from, m.seqNo.value)
    ensures !SeqTaken(messages, m)
  {
    forall id | id in messages && messages[id].from == m.from
      ensures messages[id].seqNo != m.seqNo
    {
      if messages[id].seqNo.Some? {
        assert HasNumber(messages, id, m.from, messages[id].seqNo.value);
      }
    }
  }

  lemma NextNumber(messages: Store, origin: Callsign)
    ensures IsNextNumber(messages, origin, NextSeq(messages, origin))
  {
    var seqs, n := SeqsOf(messages, origin), NextSeq(messages, origin);
    forall id, k | HasNumber(messages, id, origin, k)
      ensures k in seqs && k < n
    {
      assert k in seqs;
    }
    if seqs != {} {
      assert IsMax(seqs, n - 1);
      var id :| id in messages && messages[id].from == origin && messages[id].seqNo.Some? && messages[id].seqNo.value == n - 1;
      assert HasNumber(messages, id, origin, n - 1);
    }
  }

  ghost predicate IsSeqRow(m: Msg, row: (Callsign, int)) {
    m.from == row.0 && m.seqNo == Some(row.1)
  }

  function InsertSorted(rows: seq<(Callsign, int)>, row: (Callsign, int)): (r: seq<(Callsign, int)>)
    requires SortedRows(rows)
    ensures SortedRows(r)
    ensures forall x :: x in r <==> x == row || x in rows
  {
    if rows == [] then [row]
    else if row.1 <= rows[0].1 then [row] + rows
    else
      var rest := InsertSorted(rows[1..], row);
      assert rows == [rows[0]] + rows[1..];
      assert forall x :: x in rest ==> rows[0].1 <= x.1;
      [rows[0]] + rest
  }

  predicate Selected(m: Msg, origin: Callsign, after: int) {
    m.from == origin && m.seqNo.Some? && m.seqNo.value > after
  }

  ghost predicate Ascending(rows: seq<Msg>) {
    && (forall i :: 0 <= i < |rows| ==> rows[i].seqNo.Some?)
    && forall i, j :: 0 <= i < j < |rows| ==> rows[i].seqNo.value < rows[j].seqNo.value
  }

  lemma InsertKeepsOrder(rows: seq<Msg>, k: nat, m: Msg)
    requires Ascending(rows) && m.seqNo.Some? && k <= |rows|
    requires k > 0 ==> rows[k - 1].seqNo.value < m.seqNo.value
    requires k < |rows| ==> m.seqNo.value < rows[k].seqNo.value
    ensures Ascending(rows[..k] + [m] + rows[k..])
  {
    var r := rows[..k] + [m] + rows[k..];
    assert forall i :: 0 <= i < k ==> r[i] == rows[i];
    assert forall i :: k < i < |r| ==> r[i] == rows[i - 1];
  }

  /** Puts a row of a new number into its place. */
  method InsertBySeq(rows: seq<Msg>, m: Msg) returns (r: seq<Msg>)
    requires Ascending(rows) && m.seqNo.Some?
    requires forall i :: 0 <= i < |rows| ==> rows[i].seqNo.value != m.seqNo.value
    ensures Ascending(r)
    ensures forall x :: x in r <==> x == m || x in rows
  {
    var k := 0;
    while k < |rows| && rows[k].seqNo.value < m.seqNo.value
      invariant 0 <= k <= |rows|
      invariant k > 0 ==> rows[k - 1].seqNo.value < m.seqNo.value
    {
      k := k + 1;
    }
    InsertKeepsOrder(rows, k, m);
    r := rows[..k] + [m] + rows[k..];
    InsertMembers(rows, k, m);
  }

  lemma InsertMembers<T>(rows: seq<T>, k: nat, m: T)
    requires k <= |rows|
    ensures forall x :: x in rows[..k] + [m] + rows[k..] <==> x == m || x in rows
  {
    assert rows == rows[..k] + rows[k..];
  }

  /** The list is one node's numbers out of the rows, in order. */
  ghost predicate Grouped(rows: seq<(Callsign, int)>, c: Callsign, seqs: seq<int>) {
    && (forall n :: n in seqs <==> (c, n) in rows)
    && forall i, j :: 0 <= i < j < |seqs| ==> seqs[i] <= seqs[j]
  }

  ghost predicate SortedRows(rows: seq<(Callsign, int)>) {
    forall i, j :: 0 <= i < j < |rows| ==> rows[i].1 <= rows[j].1
  }

  /** A row joins its own group and no other. */
  lemma GroupedStep(rows: seq<(Callsign, int)>, i: nat, c: Callsign, seqs: seq<int>)
    requires i < |rows| && SortedRows(rows) && Grouped(rows[..i], c, seqs)
    ensures Grouped(rows[..i + 1], c, if c == rows[i].0 then seqs + [rows[i].1] else seqs)
  {
    var more := rows[..i + 1];
    assert more == rows[..i] + [rows[i]];
    if c == rows[i].0 {
      var longer := seqs + [rows[i].1];
      forall n
        ensures n in longer <==> (c, n) in more
      {
        assert (c, n) in more <==> (c, n) in rows[..i] || n == rows[i].1;
      }
      forall j, k | 0 <= j < k < |longer|
        ensures longer[j] <= longer[k]
      {
        if k == |seqs| {
          assert seqs[j] in seqs;
          assert (c, seqs[j]) in rows[..i];
          var at :| 0 <= at < i && rows[at] == (c, seqs[j]);
        }
      }
    }
  }

  /** The first loop of GetVectorClock: the ordered numbers of every node that has any. */
  method GroupByNode(rows: seq<(Callsign, int)>) returns (seqsByNode: map<Callsign, seq<int>>)
    requires SortedRows(rows)
    ensures forall c :: c in seqsByNode ==> Grouped(rows, c, seqsByNode[c])
    ensures forall c :: c in seqsByNode <==> exists n :: (c, n) in rows
  {
    seqsByNode := map[];
    for i := 0 to |rows|
      invariant forall c :: Grouped(rows[..i], c, if c in seqsByNode then seqsByNode[c] else [])
      invariant forall c :: c in seqsByNode ==> seqsByNode[c] != []
    {
      ghost var before := seqsByNode;
      var node, n := rows[i].0, rows[i].1;
      if node !in seqsByNode {
        seqsByNode := seqsByNode[node := []];
      }
      seqsByNode := seqsByNode[node := seqsByNode[node] + [n]];
      forall c
        ensures Grouped(rows[..i + 1], c, if c in seqsByNode then seqsByNode[c] else [])
      {
        GroupedStep(rows, i, c, if c in before then before[c] else []);
      }
    }
    assert rows[..|rows|] == rows;
    forall c
      ensures c in seqsByNode <==> exists n :: (c, n) in rows
    {
      assert Grouped(rows, c, if c in seqsByNode then seqsByNode[c] else []);
      if c in seqsByNode {
        assert seqsByNode[c][0] in seqsByNode[c];
      }
    }
  }

  ghost predicate AreSeqRows(messages: Store, rows: seq<(Callsign, int)>) {
    forall c, n :: (c, n) in rows <==> n in SeqsOf(messages, c)
  }

  lemma GroupedNumbers(messages: Store, rows: seq<(Callsign, int)>, c: Callsign, seqs: seq<int>)
    requires AreSeqRows(messages, rows) && Grouped(rows, c, seqs)
    ensures forall n :: n in seqs <==> n in SeqsOf(messages, c)
  {
    assert forall n :: n in seqs <==> (c, n) in rows;
  }

  lemma ClockFromGroups(messages: Store, rows: seq<(Callsign, int)>, groups: map<Callsign, seq<int>>, clock: Vector)
    requires AreSeqRows(messages, rows)
    requires forall c :: c in groups <==> exists n :: (c, n) in rows
    requires forall c :: c in clock <==> c in groups && ClockAt(messages, c) > 0
    requires forall c :: c in clock ==> clock[c] == ClockAt(messages, c)
    ensures clock == Clock(messages)
  {
    forall c
      ensures c in clock <==> c in Clock(messages)
      ensures c in clock ==> clock[c] == Clock(messages)[c]
    {
      ClockEntries(messages, c);
      if ClockAt(messages, c) > 0 {
        assert 1 in SeqsOf(messages, c);
        assert (c, 1) in rows;
      }
    }
  }

  /** The inner loop of GetVectorClock: on ascending numbers it finds the largest gapless prefix. */
  method ContiguousPrefix(seqs: seq<int>, ghost all: set<int>) returns (contiguous: nat)
    requires forall i, j :: 0 <= i < j < |seqs| ==> seqs[i] <= seqs[j]
    requires forall n :: n in seqs <==> n in all
    ensures contiguous == Prefix(all)
  {
    contiguous := 0;
    for k := 0 to |seqs|
      invariant forall i :: 1 <= i <= contiguous ==> i in seqs[..k]
      invariant contiguous + 1 !in seqs[..k]
    {
      assert seqs[..k + 1] == seqs[..k] + [seqs[k]];
      if seqs[k] == contiguous + 1 {
        contiguous := seqs[k];
      }
    }
    assert seqs[..|seqs|] == seqs;
    PrefixUnique(all, contiguous);
  }
}
