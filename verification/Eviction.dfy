/**
 The full fragment table of src/lan-client.c: which packet makes room for a new
 one, and when none does. A slot keeps the low 16 bits of the counter that
 numbers the packets, and its age is reckoned against the whole counter.
 */
module Eviction {
  import opened Bytes
  import opened Fragments
  import opened Reassembly

  /** Every slot in use, and none older than the eviction threshold by the source's reckoning. */
  ghost predicate Wedged(t: Table) {
    t.Valid() && forall i :: 0 <= i < LC_FRAG_COUNT ==> t.slots[i].used && Age(t.slots[i], t.localId) <= LC_FRAG_COUNT
  }

  /**
   The limit of the table: when all slots are in use, a fragment of a new packet
   changes something if and only if some slot's age, so reckoned, is above the threshold.
   */
  lemma FullTableDrops(t: Table, packet: seq<byte>)
    requires t.Valid() && InBounds(packet)
    requires FindFree(t.slots) == LC_FRAG_COUNT
    requires var h := Decode(packet); FindKey(t.slots, Key(h.src, h.id)) == LC_FRAG_COUNT
    ensures Process(t, packet) == Outcome(t, None) <==> Wedged(t)
  {
    OldestIndex(t, LC_FRAG_COUNT);
    OldestAttained(t, LC_FRAG_COUNT);
    var (i, age) := Oldest(t, LC_FRAG_COUNT);
    hide Oldest, Decode, FindKey, FindFree;
    if age > LC_FRAG_COUNT {
      assert Process(t, packet).table.localId == t.localId + 1;
    }
  }

  lemma {:induction false} OldestAttained(t: Table, n: nat)
    requires n <= |t.slots|
    ensures Oldest(t, n).1 > 0 ==> Oldest(t, n).0 < n && Age(t.slots[Oldest(t, n).0], t.localId) == Oldest(t, n).1
  {
    if n > 0 { OldestAttained(t, n - 1); }
  }

  // ------------------------------------------------------- packets left open

  ghost predicate Idle(t: Table) {
    t.Valid() && forall i :: 0 <= i < LC_FRAG_COUNT ==> !t.slots[i].used
  }

  /** The table t after the first n arrivals of a run. */
  ghost function TableFrom(t: Table, w: World, run: seq<Arrival>, n: nat): (r: Table)
    requires t.Valid() && AllOf(w, run) && n <= |run|
    ensures r.Valid()
  {
    if n == 0 then t else Process(TableFrom(t, w, run, n - 1), Wire(w, run[n - 1])).table
  }

  /** After n fragments of n different packets: slots 0..n-1 opened in order, from counter value `first` on. */
  ghost predicate OpenedInOrder(t: Table, first: nat, run: seq<Arrival>, n: nat)
    requires n <= |run|
  {
    && t.Valid() && n <= LC_FRAG_COUNT && t.localId == first + n
    && (forall i :: 0 <= i < n ==>
          t.slots[i].used && t.slots[i].localId == (first + i) % 0x1_0000 && KeyOf(t.slots[i]) == run[i].key)
    && (forall i :: n <= i < LC_FRAG_COUNT ==> !t.slots[i].used)
  }

  /** The first fragment of a packet fills its slot only partly. */
  lemma FirstFragment(slot: Slot, w: World, a: Arrival, localId: nat)
    requires ValidWorld(w) && Of(w, a) && slot.Valid()
    ensures var s := Filled(OpenedSlot(slot, a.key, localId), Wire(w, a));
            && Holds(s, w[a.key], {a.part}) && !IsFull(s.part, w[a.key].Count())
            && s.used && KeyOf(s) == a.key && s.localId == localId % 0x1_0000
  {
    hide Wire, IsFull, Holds;
    var o := OpenedSlot(slot, a.key, localId);
    OpenedHoldsNothing(slot, a.key, localId, w[a.key]);
    FillFull(o, w, a, {});
    assert {} + {a.part} == {a.part};
    OneIsNotAll(w[a.key], a.part);
  }

  lemma LocateNext(run: seq<Arrival>, t: Table, first: nat, n: nat)
    requires n < |run| && n < LC_FRAG_COUNT && OpenedInOrder(t, first, run, n)
    requires forall i :: 0 <= i < n ==> run[i].key != run[n].key
    ensures Locate(t, run[n].key) == Some((n, Opened(t, n, run[n].key)))
  {
    hide Oldest;
    var f := FindFree(t.slots);
    assert !t.slots[n].used;
    forall i | 0 <= i < LC_FRAG_COUNT
      ensures !Matches(t.slots[i], run[n].key)
    {
      assert i < n ==> KeyOf(t.slots[i]) == run[i].key;
    }
  }

  lemma OpenNext(w: World, run: seq<Arrival>, t: Table, first: nat, n: nat)
    requires AllOf(w, run) && n < |run| && n < LC_FRAG_COUNT && OpenedInOrder(t, first, run, n)
    requires forall i :: 0 <= i < n ==> run[i].key != run[n].key
    ensures OpenedInOrder(Process(t, Wire(w, run[n])).table, first, run, n + 1)
  {
    hide Wire, IsFull, Filled, Locate, ValidWorld, Process, OpenedSlot, Holds;
    LocateNext(run, t, first, n);
    FirstFragment(t.slots[n], w, run[n], t.localId);
    ProcessOpens(t, w, run[n], n);
  }

  lemma {:induction false} OpenedRun(w: World, run: seq<Arrival>, t: Table, n: nat)
    requires AllOf(w, run) && t.Valid() && Idle(t) && n <= |run| && n <= LC_FRAG_COUNT
    requires forall i, j :: 0 <= i < j < |run| ==> run[i].key != run[j].key
    ensures OpenedInOrder(TableFrom(t, w, run, n), t.localId, run, n)
  {
    hide TableFrom, Process, Wire, OpenedInOrder, Table.Valid, ValidWorld, Of, Idle;
    if n == 0 {
      NothingOpened(w, run, t);
    } else {
      OpenedRun(w, run, t, n - 1);
      OpenNext(w, run, TableFrom(t, w, run, n - 1), t.localId, n - 1);
      TableFromStep(t, w, run, n - 1);
    }
  }

  lemma NothingOpened(w: World, run: seq<Arrival>, t: Table)
    requires AllOf(w, run) && Idle(t)
    ensures TableFrom(t, w, run, 0) == t && OpenedInOrder(t, t.localId, run, 0)
  {
  }

  lemma TableFromStep(t: Table, w: World, run: seq<Arrival>, n: nat)
    requires t.Valid() && AllOf(w, run) && n < |run|
    ensures TableFrom(t, w, run, n + 1) == Process(TableFrom(t, w, run, n), Wire(w, run[n])).table
  {
    hide Process, Wire;
  }

  lemma InOrderWedged(t: Table, first: nat, run: seq<Arrival>)
    requires LC_FRAG_COUNT <= |run| && OpenedInOrder(t, first, run, LC_FRAG_COUNT)
    ensures Wedged(t) <==> first + 99 < 0x1_0000
  {
    if first + 99 >= 0x1_0000 {
      assert Age(t.slots[99], t.localId) > LC_FRAG_COUNT;
    }
  }

  /**
   100 packets of which one fragment each has arrived, one after the other, wedge
   an idle table if and only if the last of them was still numbered below 65536.
   */
  lemma HundredOpenPacketsWedge(w: World, run: seq<Arrival>, t: Table)
    requires AllOf(w, run) && Idle(t) && |run| == LC_FRAG_COUNT
    requires forall i, j :: 0 <= i < j < |run| ==> run[i].key != run[j].key
    ensures Wedged(TableFrom(t, w, run, |run|)) <==> t.localId + 99 < 0x1_0000
  {
    hide TableFrom, OpenedInOrder, Wedged, AllOf;
    OpenedRun(w, run, t, |run|);
    InOrderWedged(TableFrom(t, w, run, |run|), t.localId, run);
  }

  /** The same packets are open, in the same slots and with the same ages. */
  predicate SameOpen(t: Table, t': Table) {
    && |t'.slots| == |t.slots| && t'.localId == t.localId
    && forall i :: 0 <= i < |t.slots| ==>
         && t'.slots[i].used == t.slots[i].used && t'.slots[i].localId == t.slots[i].localId
         && KeyOf(t'.slots[i]) == KeyOf(t.slots[i])
  }

  predicate IsOpen(t: Table, k: Key) {
    exists i :: 0 <= i < |t.slots| && Matches(t.slots[i], k)
  }

  /** Only a delivery can change which packets a wedged table has open. */
  lemma WedgedStays(t: Table, packet: seq<byte>)
    requires t.Valid() && Wedged(t) && InBounds(packet) && Process(t, packet).delivered == None
    ensures SameOpen(t, Process(t, packet).table)
    ensures !IsOpen(t, Key(Decode(packet).src, Decode(packet).id)) ==> Process(t, packet).table == t
  {
    OldestAttained(t, LC_FRAG_COUNT);
    hide Oldest, Decode, IsFull;
    assert FindFree(t.slots) == LC_FRAG_COUNT;
  }

  predicate AllInBounds(packets: seq<seq<byte>>) {
    forall p <- packets :: InBounds(p)
  }

  function TableRun(t: Table, packets: seq<seq<byte>>): (r: Table)
    requires t.Valid() && AllInBounds(packets)
    ensures r.Valid()
  {
    if packets == [] then t else Process(TableRun(t, packets[..|packets| - 1]), packets[|packets| - 1]).table
  }

  /** Nothing is delivered while these fragments arrive. */
  predicate Undelivered(t: Table, packets: seq<seq<byte>>)
    requires t.Valid() && AllInBounds(packets)
  {
    forall n :: 0 <= n < |packets| ==> Process(TableRun(t, packets[..n]), packets[n]).delivered == None
  }

  /**
   A wedged table stays wedged, and drops every fragment of a packet that is not
   open, however many and whatever fragments arrive, until it delivers one of
   the packets it has open.
   */
  lemma {:induction false} WedgedUntilDelivery(t: Table, packets: seq<seq<byte>>, packet: seq<byte>)
    requires t.Valid() && Wedged(t) && AllInBounds(packets) && Undelivered(t, packets) && InBounds(packet)
    ensures var t' := TableRun(t, packets);
            && Wedged(t') && SameOpen(t, t')
            && (!IsOpen(t, Key(Decode(packet).src, Decode(packet).id)) ==> Process(t', packet) == Outcome(t', None))
  {
    hide Process, Decode, InBounds, TableRun, Undelivered, SameOpen, Wedged;
    SameOpenRun(t, packets);
    DropsNew(t, TableRun(t, packets), packet);
  }

  lemma {:induction false} SameOpenRun(t: Table, packets: seq<seq<byte>>)
    requires t.Valid() && Wedged(t) && AllInBounds(packets) && Undelivered(t, packets)
    ensures SameOpen(t, TableRun(t, packets))
  {
    hide Process, InBounds, Undelivered, Wedged, SameOpen;
    if packets == [] {
      SameOpenReflexive(t);
    } else {
      UndeliveredBefore(t, packets);
      hide TableRun;
      var n := |packets| - 1;
      SameOpenRun(t, packets[..n]);
      var mid := TableRun(t, packets[..n]);
      StillWedged(t, mid);
      WedgedStays(mid, packets[n]);
      SameOpenTransitive(t, mid, TableRun(t, packets));
    }
  }

  lemma SameOpenReflexive(t: Table)
    ensures SameOpen(t, t)
  {
  }

  lemma SameOpenTransitive(t: Table, u: Table, v: Table)
    requires SameOpen(t, u) && SameOpen(u, v)
    ensures SameOpen(t, v)
  {
  }

  lemma StillWedged(t: Table, t': Table)
    requires t.Valid() && t'.Valid() && Wedged(t) && SameOpen(t, t')
    ensures Wedged(t')
  {
  }

  lemma {:induction false} UndeliveredBefore(t: Table, packets: seq<seq<byte>>)
    requires t.Valid() && packets != [] && AllInBounds(packets) && Undelivered(t, packets)
    ensures var n := |packets| - 1;
            && AllInBounds(packets[..n]) && InBounds(packets[n]) && Undelivered(t, packets[..n])
            && var last := Process(TableRun(t, packets[..n]), packets[n]);
               last.delivered == None && last.table == TableRun(t, packets)
  {
    var before := packets[..|packets| - 1];
    hide Process, InBounds;
    forall k | 0 <= k < |before|
      ensures Process(TableRun(t, before[..k]), before[k]).delivered == None
    {
      assert before[..k] == packets[..k];
    }
  }

  lemma DropsNew(t: Table, t': Table, packet: seq<byte>)
    requires t.Valid() && t'.Valid() && Wedged(t) && SameOpen(t, t') && InBounds(packet)
    ensures Wedged(t')
    ensures !IsOpen(t, Key(Decode(packet).src, Decode(packet).id)) ==> Process(t', packet) == Outcome(t', None)
  {
    var k := Key(Decode(packet).src, Decode(packet).id);
    hide Decode, Process;
    if !IsOpen(t, k) {
      forall i | 0 <= i < LC_FRAG_COUNT
        ensures !Matches(t'.slots[i], k)
      {
        assert KeyOf(t'.slots[i]) == KeyOf(t.slots[i]) && !Matches(t.slots[i], k);
      }
      assert FindFree(t'.slots) == LC_FRAG_COUNT && FindKey(t'.slots, k) == LC_FRAG_COUNT;
      FullTableDrops(t', packet);
    }
  }

  // ------------------------------------------------- when a slot was since

  /** since[i] is the whole counter value at which slot i was opened. */
  predicate OpenedAt(t: Table, since: seq<nat>) {
    && |since| == |t.slots| == LC_FRAG_COUNT
    && (forall i :: 0 <= i < LC_FRAG_COUNT && t.slots[i].used ==>
          since[i] < t.localId && t.slots[i].localId == since[i] % 0x1_0000)
    && (forall i, j :: 0 <= i < j < LC_FRAG_COUNT && t.slots[i].used && t.slots[j].used ==> since[i] != since[j])
  }

  /** The opening times after one more fragment. */
  function Reopened(t: Table, since: seq<nat>, packet: seq<byte>): (r: seq<nat>)
    requires t.Valid() && InBounds(packet) && |since| == LC_FRAG_COUNT
    ensures |r| == LC_FRAG_COUNT
  {
    var h := Decode(packet);
    match Locate(t, Key(h.src, h.id))
    case Some((i, t')) => if t'.localId > t.localId then since[i := t.localId] else since
    case None => since
  }

  /** The opening times after a run of fragments from the start. */
  function Openings(packets: seq<seq<byte>>): (r: seq<nat>)
    requires AllInBounds(packets)
    ensures |r| == LC_FRAG_COUNT
  {
    if packets == [] then seq(LC_FRAG_COUNT, _ => 0) else
    var before, last := packets[..|packets| - 1], packets[|packets| - 1];
    Reopened(TableRun(Init(), before), Openings(before), last)
  }

  lemma ReopenedKept(t: Table, since: seq<nat>, packet: seq<byte>)
    requires t.Valid() && InBounds(packet) && OpenedAt(t, since)
    ensures OpenedAt(Process(t, packet).table, Reopened(t, since, packet))
  {
    hide Decode, InBounds, IsFull, Oldest, FindKey, FindFree;
  }

  lemma {:induction false} RunOpenedAt(packets: seq<seq<byte>>)
    requires AllInBounds(packets)
    ensures OpenedAt(TableRun(Init(), packets), Openings(packets))
  {
    if packets != [] {
      hide Process, Reopened, InBounds, OpenedAt;
      var before, last := packets[..|packets| - 1], packets[|packets| - 1];
      RunOpenedAt(before);
      ReopenedKept(TableRun(Init(), before), Openings(before), last);
    }
  }

  ghost predicate AllUsed(t: Table) {
    t.Valid() && forall i :: 0 <= i < LC_FRAG_COUNT ==> t.slots[i].used
  }

  /** The age of a slot as the source reckons it: its age in packets, and 65536 for every lap before it. */
  lemma AgeCountsLaps(slot: Slot, localId: nat, since: nat)
    requires since < localId && slot.localId == since % 0x1_0000
    ensures Age(slot, localId) == localId - since + since / 0x1_0000 * 0x1_0000
  {
  }

  /** A full table is wedged if and only if every slot was opened among the first 65536 packets and the last 100. */
  lemma WedgedIff(t: Table, since: seq<nat>)
    requires OpenedAt(t, since) && AllUsed(t)
    ensures Wedged(t) <==>
      forall i :: 0 <= i < LC_FRAG_COUNT ==> since[i] < 0x1_0000 && t.localId <= since[i] + LC_FRAG_COUNT
  {
    hide Age;
    forall i | 0 <= i < LC_FRAG_COUNT
      ensures Age(t.slots[i], t.localId) <= LC_FRAG_COUNT <==>
        since[i] < 0x1_0000 && t.localId <= since[i] + LC_FRAG_COUNT
    {
      AgeCountsLaps(t.slots[i], t.localId, since[i]);
    }
  }

  /**
   After every run of fragments that leaves the table full, a fragment of a new
   packet is dropped if and only if every slot was opened among the first 65536
   packets and among the last 100.
   */
  lemma DroppedIff(packets: seq<seq<byte>>, packet: seq<byte>)
    requires AllInBounds(packets) && InBounds(packet)
    requires var t := TableRun(Init(), packets);
             AllUsed(t) && !IsOpen(t, Key(Decode(packet).src, Decode(packet).id))
    ensures var t, since := TableRun(Init(), packets), Openings(packets);
            Process(t, packet) == Outcome(t, None) <==>
            forall i :: 0 <= i < LC_FRAG_COUNT ==> since[i] < 0x1_0000 && t.localId <= since[i] + LC_FRAG_COUNT
  {
    RunOpenedAt(packets);
    var t, since := TableRun(Init(), packets), Openings(packets);
    hide TableRun, Openings, Process, Decode, InBounds;
    WedgedIff(t, since);
    hide Wedged, OpenedAt;
    assert FindFree(t.slots) == LC_FRAG_COUNT;
    FullTableDrops(t, packet);
  }

  // ------------------------------------------------------ which slot is taken

  lemma {:induction false} OldestIsFirst(t: Table, n: nat)
    requires n <= |t.slots|
    ensures Oldest(t, n).0 == 0 || Oldest(t, n).0 < n
    ensures forall j :: 0 <= j < Oldest(t, n).0 && t.slots[j].used ==> Age(t.slots[j], t.localId) < Oldest(t, n).1
  {
    if n > 0 {
      OldestIsFirst(t, n - 1);
      OldestIndex(t, n - 1);
    }
  }

  /** Slot m would be taken before slot j: its 16-bit number is smaller, or the same and it comes first. */
  predicate Before(t: Table, m: nat, j: nat)
    requires m < |t.slots| && j < |t.slots|
  {
    t.slots[m].localId < t.slots[j].localId || (t.slots[m].localId == t.slots[j].localId && m < j)
  }

  /** A full table takes the slot with the smallest 16-bit number, whenever that was opened. */
  lemma TakenIff(t: Table, since: seq<nat>, m: nat)
    requires OpenedAt(t, since) && AllUsed(t) && m < LC_FRAG_COUNT
    ensures Oldest(t, LC_FRAG_COUNT).0 == m <==> forall j :: 0 <= j < LC_FRAG_COUNT && j != m ==> Before(t, m, j)
  {
    TakenBefore(t, since);
    hide Oldest, OpenedAt;
    var i := Oldest(t, LC_FRAG_COUNT).0;
    if i != m {
      assert Before(t, i, m) && !Before(t, m, i);
    }
  }

  lemma TakenBefore(t: Table, since: seq<nat>)
    requires OpenedAt(t, since) && AllUsed(t)
    ensures var i := Oldest(t, LC_FRAG_COUNT).0;
            i < LC_FRAG_COUNT && forall j :: 0 <= j < LC_FRAG_COUNT && j != i ==> Before(t, i, j)
  {
    hide Oldest;
    TakenIndex(t, since);
    OldestIndex(t, LC_FRAG_COUNT);
    OldestAttained(t, LC_FRAG_COUNT);
    OldestIsFirst(t, LC_FRAG_COUNT);
    var (i, age) := Oldest(t, LC_FRAG_COUNT);
    forall j | 0 <= j < LC_FRAG_COUNT && j != i
      ensures Before(t, i, j)
    {
      assert Age(t.slots[j], t.localId) <= age && (j < i ==> Age(t.slots[j], t.localId) < age);
    }
  }

  predicate LongestOpen(since: seq<nat>, m: nat)
    requires |since| == LC_FRAG_COUNT && m < LC_FRAG_COUNT
  {
    forall j :: 0 <= j < LC_FRAG_COUNT ==> since[m] <= since[j]
  }

  /** No lap of the 16-bit number separates two slots. */
  predicate SameLap(since: seq<nat>)
    requires |since| == LC_FRAG_COUNT
  {
    forall i, j :: 0 <= i < LC_FRAG_COUNT && 0 <= j < LC_FRAG_COUNT ==> since[i] / 0x1_0000 == since[j] / 0x1_0000
  }

  /**
   While no packet stays open for 65536 others, the slot taken is the one that
   has been open longest if and only if all were opened in one lap of the
   16-bit number.
   */
  lemma LongestOpenIsTakenIff(t: Table, since: seq<nat>)
    requires OpenedAt(t, since) && AllUsed(t)
    requires forall i, j :: 0 <= i < LC_FRAG_COUNT && 0 <= j < LC_FRAG_COUNT ==> since[i] < since[j] + 0x1_0000
    ensures Oldest(t, LC_FRAG_COUNT).0 < LC_FRAG_COUNT
    ensures LongestOpen(since, Oldest(t, LC_FRAG_COUNT).0) <==> SameLap(since)
  {
    TakenIndex(t, since);
    var m := Oldest(t, LC_FRAG_COUNT).0;
    TakenIff(t, since, m);
    hide Oldest;
    if LongestOpen(since, m) {
      forall j | 0 <= j < LC_FRAG_COUNT
        ensures since[j] / 0x1_0000 == since[m] / 0x1_0000
      {
        assert j != m ==> Before(t, m, j);
        SmallerInLap(since[m], since[j]);
      }
    } else {
      var j :| 0 <= j < LC_FRAG_COUNT && since[j] < since[m];
      assert Before(t, m, j);
      LaterInLap(since[m], since[j]);
    }
  }

  lemma TakenIndex(t: Table, since: seq<nat>)
    requires OpenedAt(t, since) && AllUsed(t)
    ensures Oldest(t, LC_FRAG_COUNT).0 < LC_FRAG_COUNT
  {
    OldestIndex(t, LC_FRAG_COUNT);
    hide Oldest;
    assert Age(t.slots[0], t.localId) > 0;
  }

  lemma SmallerInLap(m: nat, j: nat)
    requires m <= j < m + 0x1_0000 && m % 0x1_0000 <= j % 0x1_0000
    ensures j / 0x1_0000 == m / 0x1_0000
  {
  }

  lemma LaterInLap(m: nat, j: nat)
    requires j < m && m % 0x1_0000 <= j % 0x1_0000
    ensures j / 0x1_0000 != m / 0x1_0000
  {
  }

  function InARow(first: nat): seq<nat> {
    seq(LC_FRAG_COUNT, i requires 0 <= i < LC_FRAG_COUNT => first + i)
  }

  lemma InOrderOpenedAt(t: Table, first: nat, run: seq<Arrival>)
    requires LC_FRAG_COUNT <= |run| && OpenedInOrder(t, first, run, LC_FRAG_COUNT)
    ensures AllUsed(t) && OpenedAt(t, InARow(first))
    ensures forall i :: 0 <= i < LC_FRAG_COUNT ==>
      t.slots[i].localId == (first + i) % 0x1_0000 && KeyOf(t.slots[i]) == run[i].key
  {
  }

  /** Of 100 packets opened one after the other, the first is picked if and only if no lap lies between them. */
  lemma FirstIsTakenIff(w: World, run: seq<Arrival>, t: Table)
    requires AllOf(w, run) && t.Valid() && Idle(t) && |run| == LC_FRAG_COUNT
    requires forall i, j :: 0 <= i < j < |run| ==> run[i].key != run[j].key
    ensures Oldest(TableFrom(t, w, run, |run|), LC_FRAG_COUNT).0 == 0 <==>
            t.localId / 0x1_0000 == (t.localId + 99) / 0x1_0000
  {
    hide TableFrom, OpenedInOrder, Idle, AllOf, Oldest, OpenedAt, Table.Valid;
    OpenedRun(w, run, t, |run|);
    var t', first := TableFrom(t, w, run, |run|), t.localId;
    InOrderOpenedAt(t', first, run);
    TakenIff(t', InARow(first), 0);
    if first / 0x1_0000 == (first + 99) / 0x1_0000 {
      forall j | 0 < j < LC_FRAG_COUNT
        ensures Before(t', 0, j)
      {
        assert (first + j) / 0x1_0000 == first / 0x1_0000;
      }
    } else {
      LaterLap(first);
      assert !Before(t', 0, 99);
    }
  }

  lemma LaterLap(first: nat)
    requires first / 0x1_0000 != (first + 99) / 0x1_0000
    ensures (first + 99) % 0x1_0000 < first % 0x1_0000
  {
  }

  /** The other way round: when the last of them starts a lap, it is the newest that makes room. */
  lemma NewestIsTaken(w: World, run: seq<Arrival>, t: Table)
    requires AllOf(w, run) && t.Valid() && Idle(t) && |run| == LC_FRAG_COUNT
    requires forall i, j :: 0 <= i < j < |run| ==> run[i].key != run[j].key
    requires (t.localId + 99) % 0x1_0000 == 0
    ensures var t' := TableFrom(t, w, run, |run|);
            Oldest(t', LC_FRAG_COUNT).0 == 99 && |t'.slots| == LC_FRAG_COUNT && KeyOf(t'.slots[99]) == run[99].key
  {
    hide TableFrom, OpenedInOrder, Idle, AllOf, Oldest, OpenedAt, Table.Valid;
    OpenedRun(w, run, t, |run|);
    var t', first := TableFrom(t, w, run, |run|), t.localId;
    InOrderOpenedAt(t', first, run);
    TakenIff(t', InARow(first), 99);
    forall j | 0 <= j < 99
      ensures Before(t', 99, j)
    {
      assert (first + j) % 0x1_0000 == 0x1_0000 - 99 + j;
    }
  }

  // --------------------------------------------------- every counter is reached

  /** A packet of two parts arrives whole, n times over. */
  function Again(k: Key, n: nat): (r: seq<Arrival>)
    ensures |r| == 2 * n
    ensures forall i :: 0 <= i < |r| ==> r[i] == Arrival(k, i % 2)
  {
    if n == 0 then [] else Again(k, n - 1) + [Arrival(k, 0), Arrival(k, 1)]
  }

  lemma OneMore(t: Table, w: World, k: Key)
    requires Idle(t) && ValidWorld(w) && k in w && w[k].Valid() && w[k].Count() == 2
    ensures var t1 := Process(t, Wire(w, Arrival(k, 0))).table;
            var t2 := Process(t1, Wire(w, Arrival(k, 1))).table;
            Idle(t2) && t2.localId == t.localId + 1
  {
    hide Wire, IsFull, Filled, Holds, Locate, Process, OpenedSlot;
    var a, b := Arrival(k, 0), Arrival(k, 1);
    LocateIdle(t, k);
    FirstFragment(t.slots[0], w, a, t.localId);
    ProcessOpens(t, w, a, 0);
    var t1 := Process(t, Wire(w, a)).table;
    LocateSame(t1, k);
    FillFull(t1.slots[0], w, b, {0});
    assert {0} + {1} == {0, 1} && w[k].Complete({0, 1});
    ProcessCompletes(t1, w, b, 0);
  }

  lemma LocateIdle(t: Table, k: Key)
    requires Idle(t)
    ensures Locate(t, k) == Some((0, Opened(t, 0, k)))
  {
    hide Oldest;
  }

  lemma LocateSame(t: Table, k: Key)
    requires t.Valid() && Matches(t.slots[0], k)
    ensures Locate(t, k) == Some((0, t))
  {
    hide Oldest;
  }

  /** A fragment that completes slot i. */
  lemma {:induction false} ProcessCompletes(t: Table, w: World, a: Arrival, i: nat)
    requires t.Valid() && ValidWorld(w) && Of(w, a) && i < LC_FRAG_COUNT && Locate(t, a.key) == Some((i, t))
    requires IsFull(Filled(t.slots[i], Wire(w, a)).part, w[a.key].Count())
    ensures Process(t, Wire(w, a)).table == t.(slots := t.slots[i := Filled(t.slots[i], Wire(w, a)).(used := false)])
  {
    ArrivalBytes(w, a);
    hide Wire, InBounds, Filled, IsFull, Locate, ValidWorld;
  }

  /** For every n there is a run from the start that leaves the table idle with the counter at n. */
  lemma {:induction false} EveryCounterIsReached(w: World, k: Key, n: nat)
    requires ValidWorld(w) && k in w && w[k].Valid() && w[k].Count() == 2
    ensures AllOf(w, Again(k, n))
    ensures var t := TableFrom(Init(), w, Again(k, n), 2 * n); Idle(t) && t.localId == n
  {
    hide Wire, Process, Idle, TableFrom, Table.Valid, ValidWorld;
    if n == 0 {
      TableFromStart(Init(), w, Again(k, 0));
    } else {
      EveryCounterIsReached(w, k, n - 1);
      var run, before := Again(k, n), Again(k, n - 1);
      assert run[..|before|] == before;
      TableFromPrefix(Init(), w, before, run, |before|);
      var t := TableFrom(Init(), w, run, |before|);
      TableFromStep(Init(), w, run, |before|);
      TableFromStep(Init(), w, run, |before| + 1);
      OneMore(t, w, k);
    }
  }

  lemma TableFromStart(t: Table, w: World, run: seq<Arrival>)
    requires t.Valid() && AllOf(w, run)
    ensures TableFrom(t, w, run, 0) == t
    ensures Idle(Init()) && Init().localId == 0
  {
  }

  lemma {:induction false} TableFromPrefix(t: Table, w: World, short: seq<Arrival>, run: seq<Arrival>, n: nat)
    requires t.Valid() && AllOf(w, short) && AllOf(w, run) && n <= |short| <= |run| && run[..|short|] == short
    ensures TableFrom(t, w, short, n) == TableFrom(t, w, run, n)
  {
    hide Wire, Process, Table.Valid, ValidWorld, Of;
    if n > 0 {
      TableFromPrefix(t, w, short, run, n - 1);
      assert run[..|short|][n - 1] == run[n - 1];
    }
  }
}
