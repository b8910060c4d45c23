/** The contiguous-prefix vector clock over a message table. */
module VectorClock {
  import opened Wrappers
  import opened Messages

  /** The sequence numbers a table holds for one origin. */
  function SeqsOf(store: Store, origin: Callsign): set<int> {
    set id | id in store && store[id].from == origin && store[id].seqNo.Some? :: store[id].seqNo.value
  }

  lemma RemovedBefore(s: set<int>, n: nat, r: nat)
    requires forall i :: n < i <= r ==> i in s - {n}
    ensures forall i :: n < i <= r ==> i in s
  {
    forall i | n < i <= r
      ensures i in s
    {
      assert i in s - {n};
    }
  }

  /** Follows the numbers n + 1, n + 2, ... while they are present. */
  function PrefixFrom(s: set<int>, n: nat): (r: nat)
    ensures n <= r && r + 1 !in s
    ensures forall i :: n < i <= r ==> i in s
    decreases |s|
  {
    if n + 1 in s then
      var rest := s - {n + 1};
      var r := PrefixFrom(rest, n + 1);
      RemovedBefore(s, n + 1, r);
      r
    else n
  }

  /** The largest N such that 1..N are all present. */
  function Prefix(s: set<int>): nat {
    PrefixFrom(s, 0)
  }

  function ClockAt(store: Store, origin: Callsign): nat {
    Prefix(SeqsOf(store, origin))
  }

  function Origins(store: Store): set<Callsign> {
    set id | id in store :: store[id].from
  }

  /** The advertised clock: one entry per origin with a non-empty prefix. */
  function Clock(store: Store): Vector {
    map c | c in Origins(store) && ClockAt(store, c) > 0 :: ClockAt(store, c)
  }

  /** No number lies above a gap. */
  ghost predicate Gapless(s: set<int>) {
    forall i :: i in s ==> 1 <= i <= Prefix(s)
  }

  /** Prefix is the only number with this property. */
  lemma PrefixUnique(s: set<int>, n: nat)
    requires forall i :: 1 <= i <= n ==> i in s
    requires n + 1 !in s
    ensures Prefix(s) == n
  {
    assert Prefix(s) + 1 !in s;
  }

  lemma PrefixReaches(s: set<int>, n: nat)
    requires forall i :: 1 <= i <= n ==> i in s
    ensures n <= Prefix(s)
  {
    assert Prefix(s) + 1 !in s;
  }

  lemma PrefixMonotone(s: set<int>, t: set<int>)
    requires s <= t
    ensures Prefix(s) <= Prefix(t)
  {
    PrefixReaches(t, Prefix(s));
  }

  /** Adding the next number extends the prefix by one and leaves no gap. */
  lemma GaplessExtends(s: set<int>, t: set<int>)
    requires Gapless(s) && t == s + {Prefix(s) + 1}
    ensures Gapless(t) && Prefix(t) == Prefix(s) + 1
  {
    PrefixUnique(t, Prefix(s) + 1);
  }

  lemma SeqsMonotone(a: Store, b: Store, origin: Callsign)
    requires SubStore(a, b)
    ensures SeqsOf(a, origin) <= SeqsOf(b, origin)
  {
    forall i | i in SeqsOf(a, origin)
      ensures i in SeqsOf(b, origin)
    {
      var id :| id in a && a[id].from == origin && a[id].seqNo.Some? && a[id].seqNo.value == i;
      assert id in b && b[id] == a[id];
    }
  }

  /** A growing table never lowers any entry of its clock. */
  lemma ClockMonotone(a: Store, b: Store, origin: Callsign)
    requires SubStore(a, b)
    ensures ClockAt(a, origin) <= ClockAt(b, origin)
  {
    SeqsMonotone(a, b, origin);
    PrefixMonotone(SeqsOf(a, origin), SeqsOf(b, origin));
  }

  /** The advertised clock has an entry exactly where the prefix is positive. */
  lemma ClockEntries(store: Store, origin: Callsign)
    ensures origin in Clock(store) <==> ClockAt(store, origin) > 0
    ensures origin in Clock(store) ==> Clock(store)[origin] == ClockAt(store, origin)
  {
    if ClockAt(store, origin) > 0 {
      assert 1 in SeqsOf(store, origin);
      var id :| id in store && store[id].from == origin && store[id].seqNo.Some? && store[id].seqNo.value == 1;
      assert origin in Origins(store);
    }
  }

  ghost predicate HasRow(store: Store, origin: Callsign, i: int) {
    exists id :: id in store && store[id].from == origin && store[id].seqNo == Some(i)
  }

  /** The clock in terms of rows: the listed number and all below it are stored, the next is not; an origin without number 1 is absent. */
  lemma ClockMeans(store: Store, origin: Callsign)
    ensures origin in Clock(store) <==> HasRow(store, origin, 1)
    ensures origin in Clock(store) ==>
              && (forall i :: 1 <= i <= Clock(store)[origin] ==> HasRow(store, origin, i))
              && !HasRow(store, origin, Clock(store)[origin] + 1)
  {
    ClockEntries(store, origin);
    forall i
      ensures HasRow(store, origin, i) <==> i in SeqsOf(store, origin)
    {
    }
    assert ClockAt(store, origin) + 1 !in SeqsOf(store, origin);
  }
}
