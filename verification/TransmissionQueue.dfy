/** The retrying transmission queue: one worker, any number of enqueues, cleanups and crashes. */
module TransmissionQueue {
  import opened Wrappers
  import opened Messages

  const MAX_RETRIES := 3
  const RETRY_DELAY := 60
  const STALE_AFTER := 60
  const KEEP_SENT := 3600
  const KEEP_FAILED := 86400

  datatype Status = Pending | Transmitting | Sent | Failed

  datatype QueueRow = QueueRow(frame: Frame, status: Status, attempts: int, createdAt: int, scheduledAt: int)

  /** The transmission_queue table by row id. */
  type Queue = map<int, QueueRow>

  /** A delay from now, but never before now. */
  function DueTime(now: int, delay: int): int {
    if now + delay < now then now else now + delay
  }

  function NewRow(frame: Frame, now: int, delay: int): QueueRow {
    QueueRow(frame, Pending, 0, now, DueTime(now, delay))
  }

  predicate Due(q: Queue, id: int, now: int) {
    id in q && q[id].status.Pending? && q[id].scheduledAt <= now
  }

  /** The row is an earliest-scheduled due row. */
  predicate IsNext(q: Queue, id: int, now: int) {
    Due(q, id, now) && forall other :: other in q && Due(q, other, now) ==> q[id].scheduledAt <= q[other].scheduledAt
  }

  function Pick(q: Queue, id: int): Queue
    requires id in q
  {
    q[id := q[id].(status := Transmitting)]
  }

  /** MarkTransmitted; an UPDATE of an absent row does nothing. */
  function Succeed(q: Queue, id: int): Queue {
    if id in q then q[id := q[id].(status := Sent)] else q
  }

  /** MarkTransmissionFailed. An absent row reads as zero attempts and is not updated. */
  function Fail(q: Queue, id: int, maxRetries: int, now: int): Queue {
    if id !in q then q
    else if q[id].attempts >= maxRetries - 1 then q[id := q[id].(status := Failed, attempts := q[id].attempts + 1)]
    else q[id := q[id].(status := Pending, attempts := q[id].attempts + 1, scheduledAt := now + RETRY_DELAY)]
  }

  predicate Discarded(r: QueueRow, now: int) {
    || (r.status.Sent? && r.createdAt < now - KEEP_SENT)
    || (r.status.Failed? && r.createdAt < now - KEEP_FAILED)
  }

  /** CleanupTransmissionQueue: old finished rows go, stale transmitting rows become pending again. */
  function Cleanup(q: Queue, now: int): Queue {
    map id | id in q && !Discarded(q[id], now) ::
      if q[id].status.Transmitting? && q[id].scheduledAt < now - STALE_AFTER then q[id].(status := Pending) else q[id]
  }

  /** Sent more than an hour after it was queued, or failed more than a day after. */
  predicate IsOldRow(r: QueueRow, now: int) {
    (r.status.Sent? && now - r.createdAt > 3600) || (r.status.Failed? && now - r.createdAt > 24 * 3600)
  }

  /** A row found transmitting more than a minute after it was due is pending again. */
  function WithoutStale(r: QueueRow, now: int): QueueRow {
    if r.status.Transmitting? && now - r.scheduledAt > 60 then r.(status := Pending) else r
  }

  lemma CleanupIs(q: Queue, now: int)
    ensures forall id :: id in Cleanup(q, now) <==> id in q && !IsOldRow(q[id], now)
    ensures forall id :: id in Cleanup(q, now) ==> Cleanup(q, now)[id] == WithoutStale(q[id], now)
  {
  }

  /** A failed attempt keeps the row from being due for a minute; the third ends it for good. */
  lemma FailureWaits(q: Queue, id: int, now: int, later: int)
    requires id in q && q[id].attempts < 3
    ensures var t := Fail(q, id, MAX_RETRIES, now);
            && t[id].attempts == q[id].attempts + 1
            && (t[id].status.Failed? <==> q[id].attempts == 2)
            && (Due(t, id, later) <==> q[id].attempts < 2 && later >= now + 60)
  {
  }

  // ---- runs ----

  /**
    * held: the row the worker is sending. lastId: the table's autoincrement counter. picks and
    * lost are history: how often a row was picked, and how often a crash made the worker forget it.
    */
  datatype System = System(queue: Queue, lastId: int, held: Option<int>, picks: map<int, nat>, lost: map<int, nat>)

  datatype Event =
    | Enqueued(frame: Frame, now: int, delay: int)
    | Picked(id: int, now: int)
    | SendOk
    | SendFailed(now: int)
    | CleanedUp(now: int)
    | Crashed

  const EMPTY := System(map[], 0, None, map[], map[])

  function Times(history: map<int, nat>, id: int): nat {
    if id in history then history[id] else 0
  }

  predicate CanHappen(s: System, e: Event) {
    match e
    case Picked(id, now) => s.held.None? && IsNext(s.queue, id, now)
    case SendOk => s.held.Some?
    case SendFailed(_) => s.held.Some?
    case _ => true
  }

  function Next(s: System, e: Event): System
    requires CanHappen(s, e)
  {
    match e
    case Enqueued(f, now, delay) =>
      s.(queue := s.queue[s.lastId + 1 := NewRow(f, now, delay)], lastId := s.lastId + 1)
    case Picked(id, _) =>
      s.(queue := Pick(s.queue, id), held := Some(id), picks := s.picks[id := Times(s.picks, id) + 1])
    case SendOk => s.(queue := Succeed(s.queue, s.held.value), held := None)
    case SendFailed(now) => s.(queue := Fail(s.queue, s.held.value, MAX_RETRIES, now), held := None)
    case CleanedUp(now) => s.(queue := Cleanup(s.queue, now))
    case Crashed =>
      if s.held.Some? then s.(held := None, lost := s.lost[s.held.value := Times(s.lost, s.held.value) + 1]) else s
  }

  predicate Possible(s: System, es: seq<Event>)
    decreases |es|
  {
    es == [] || (CanHappen(s, es[0]) && Possible(Next(s, es[0]), es[1..]))
  }

  function Run(s: System, es: seq<Event>): System
    requires Possible(s, es)
    decreases |es|
  {
    if es == [] then s else Run(Next(s, es[0]), es[1..])
  }

  /** The accounts of one row. */
  ghost predicate RowOk(s: System, id: int)
    requires id in s.queue
  {
    var r := s.queue[id];
    && 0 <= r.attempts <= MAX_RETRIES
    && (r.status.Failed? <==> r.attempts == MAX_RETRIES)
    && Times(s.picks, id)
       == r.attempts + (if r.status.Sent? then 1 else 0) + (if s.held == Some(id) then 1 else 0) + Times(s.lost, id)
    && (s.held == Some(id) ==> r.status.Pending? || r.status.Transmitting?)
    && (r.status.Transmitting? ==> s.held == Some(id) || Times(s.lost, id) > 0)
  }

  ghost predicate Valid(s: System) {
    && (forall id :: id in s.queue ==> id <= s.lastId && RowOk(s, id))
    && (forall id :: id in s.picks || id in s.lost ==> id <= s.lastId)
    && (s.held.Some? ==> s.held.value in s.queue)
  }

  lemma NextKeepsValid(s: System, e: Event)
    requires Valid(s) && CanHappen(s, e)
    ensures Valid(Next(s, e))
  {
    var t := Next(s, e);
    forall id | id in t.queue
      ensures id <= t.lastId && RowOk(t, id)
    {
      if id in s.queue {
        assert RowOk(s, id);
      }
    }
    if s.held.Some? {
      assert RowOk(s, s.held.value);
    }
  }

  lemma {:induction false} RunKeepsValid(s: System, es: seq<Event>)
    requires Valid(s) && Possible(s, es)
    ensures Valid(Run(s, es))
    decreases |es|
  {
    if es != [] {
      NextKeepsValid(s, es[0]);
      RunKeepsValid(Next(s, es[0]), es[1..]);
    }
  }

  /**
    * The books of every row in every run: at most three attempts, failed exactly at three, and each
    * pick is accounted for by an attempt, the one success, the current hold or a crash.
    */
  lemma EveryRunIsAccounted(es: seq<Event>, id: int)
    requires Possible(EMPTY, es) && id in Run(EMPTY, es).queue
    ensures var s := Run(EMPTY, es);
            var r := s.queue[id];
            && 0 <= r.attempts <= 3
            && (r.status.Failed? <==> r.attempts == 3)
            && Times(s.picks, id)
               == r.attempts + (if r.status.Sent? then 1 else 0) + (if s.held == Some(id) then 1 else 0) + Times(s.lost, id)
            && Times(s.picks, id) <= 3 + Times(s.lost, id)
  {
    RunKeepsValid(EMPTY, es);
    assert RowOk(Run(EMPTY, es), id);
  }

  /** An unfinished row survives every event; its frame never changes. */
  lemma UnfinishedRowSurvives(s: System, e: Event, id: int)
    requires Valid(s) && CanHappen(s, e)
    requires id in s.queue && (s.queue[id].status.Pending? || s.queue[id].status.Transmitting?)
    ensures var t := Next(s, e);
            && id in t.queue && t.queue[id].frame == s.queue[id].frame
            && (t.queue[id].status.Sent? ==> e.SendOk? && s.held == Some(id))
            && (t.queue[id].status.Failed? ==> e.SendFailed? && s.held == Some(id) && s.queue[id].attempts == 2)
  {
    assert RowOk(s, id);
  }

  /** A finished row is not picked, and does not change until it is discarded. */
  lemma FinishedRowStays(s: System, e: Event, id: int)
    requires Valid(s) && CanHappen(s, e)
    requires id in s.queue && (s.queue[id].status.Sent? || s.queue[id].status.Failed?)
    ensures var t := Next(s, e);
            && (id in t.queue ==> t.queue[id] == s.queue[id])
            && (id !in t.queue <==> e.CleanedUp? && Discarded(s.queue[id], e.now))
            && Times(t.picks, id) == Times(s.picks, id)
  {
    assert RowOk(s, id);
  }

  /** A row that is gone never comes back: its id is not reused. */
  lemma {:induction false} GoneForGood(s: System, es: seq<Event>, id: int)
    requires Valid(s) && Possible(s, es) && id !in s.queue && id <= s.lastId
    ensures id !in Run(s, es).queue && Times(Run(s, es).picks, id) == Times(s.picks, id)
    decreases |es|
  {
    if es != [] {
      NextKeepsValid(s, es[0]);
      GoneForGood(Next(s, es[0]), es[1..], id);
    }
  }

  /** In every run the frame of a row is the one it was queued with. */
  lemma {:induction false} FrameNeverChanges(s: System, es: seq<Event>, id: int)
    requires Valid(s) && Possible(s, es) && id in s.queue
    ensures id in Run(s, es).queue ==> Run(s, es).queue[id].frame == s.queue[id].frame
    decreases |es|
  {
    if es != [] {
      var t := Next(s, es[0]);
      NextKeepsValid(s, es[0]);
      if id in t.queue {
        FrameNeverChanges(t, es[1..], id);
      } else {
        GoneForGood(t, es[1..], id);
      }
    }
  }

  ghost predicate IsFinished(s: System, id: int) {
    id in s.queue && (s.queue[id].status.Sent? || s.queue[id].status.Failed?)
  }

  /** Some prefix of the run ends with the row finished. */
  ghost predicate FinishedDuring(s: System, es: seq<Event>, id: int)
    decreases |es|
  {
    IsFinished(s, id) || (es != [] && CanHappen(s, es[0]) && FinishedDuring(Next(s, es[0]), es[1..], id))
  }

  /** No row is lost: in every run a queued row is still there unless it was sent or failed in the meantime. */
  lemma {:induction false} NoRowIsLost(s: System, es: seq<Event>, id: int)
    requires Valid(s) && Possible(s, es) && id in s.queue
    ensures id in Run(s, es).queue || FinishedDuring(s, es, id)
    decreases |es|
  {
    if es != [] && !IsFinished(s, id) {
      NextKeepsValid(s, es[0]);
      UnfinishedRowSurvives(s, es[0], id);
      NoRowIsLost(Next(s, es[0]), es[1..], id);
    }
  }

  /** Once sent or failed, a row is never picked again in any run, and never changes while it is kept. */
  lemma {:induction false} NoPickAfterFinish(s: System, es: seq<Event>, id: int)
    requires Valid(s) && Possible(s, es) && IsFinished(s, id)
    ensures Times(Run(s, es).picks, id) == Times(s.picks, id)
    ensures id in Run(s, es).queue ==> Run(s, es).queue[id] == s.queue[id]
    decreases |es|
  {
    if es != [] {
      var t := Next(s, es[0]);
      NextKeepsValid(s, es[0]);
      FinishedRowStays(s, es[0], id);
      if id in t.queue {
        NoPickAfterFinish(t, es[1..], id);
      } else {
        GoneForGood(t, es[1..], id);
      }
    }
  }

  /** A row left behind by a crash is picked up again once a cleanup finds it stale. */
  lemma CrashedRowRecovers(s: System, id: int, now: int)
    requires Valid(s) && s.held == Some(id) && s.queue[id].scheduledAt < now - STALE_AFTER
    ensures var t := Next(Next(s, Crashed), CleanedUp(now));
            id in t.queue && Due(t.queue, id, now) && t.held.None?
  {
    assert RowOk(s, id);
  }
}
