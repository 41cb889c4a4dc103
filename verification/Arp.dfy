/**
 The neighbour table of src/arp.c: a first-fit array of 100 entries with
 expiry times. One address may occupy several entries; the table must still
 answer like a map from addresses to their latest successful announcement.
 */
module Arp {
  import opened Bytes

  const ARP_CACHE_LEN := 100
  const NONE_IP: Ip := [0, 0, 0, 0]
  const NONE_MAC: Mac := [0, 0, 0, 0, 0, 0]

  datatype Item = Item(ip: Ip, mac: Mac, expireAt: int)

  /** arp_list after arp_list_init. */
  function InitTable(): (s: seq<Item>)
    ensures |s| == ARP_CACHE_LEN
  {
    seq(ARP_CACHE_LEN, _ => Item(NONE_IP, NONE_MAC, 0))
  }

  /** The guard of the store in arp_set. */
  predicate Usable(item: Item, ip: Ip, now: int) {
    item.ip == NONE_IP || item.ip == ip || item.expireAt < now
  }

  /** The guard of the two lookups. */
  predicate Answers(item: Item, ip: Ip, now: int) {
    item.ip == ip && item.expireAt > now
  }

  /** The entry arp_set writes, or |s|. */
  function UsableIndex(s: seq<Item>, ip: Ip, now: int): (k: nat)
    ensures k <= |s|
    ensures k < |s| ==> Usable(s[k], ip, now)
    ensures forall i :: 0 <= i < k ==> !Usable(s[i], ip, now)
  {
    if s == [] || Usable(s[0], ip, now) then 0 else 1 + UsableIndex(s[1..], ip, now)
  }

  /** The entry a lookup stops at, or |s|. */
  function AnswerIndex(s: seq<Item>, ip: Ip, now: int): (k: nat)
    ensures k <= |s|
    ensures k < |s| ==> Answers(s[k], ip, now)
    ensures forall i :: 0 <= i < k ==> !Answers(s[i], ip, now)
  {
    if s == [] || Answers(s[0], ip, now) then 0 else 1 + AnswerIndex(s[1..], ip, now)
  }

  /** What arp_get_mac_by_ip finds. */
  function Lookup(s: seq<Item>, ip: Ip, now: int): Option<Mac> {
    var k := AnswerIndex(s, ip, now);
    if k < |s| then Some(s[k].mac) else None
  }

  /** The table together with the announcements it accepted, oldest first. */
  datatype State = State(table: seq<Item>, accepted: seq<Item>)

  /** An announcement: the clock read by arp_set, and its arguments. */
  datatype Announcement = Announcement(now: int, mac: Mac, ip: Ip)

  function Set(s: State, a: Announcement, ttl: nat): State {
    var k := UsableIndex(s.table, a.ip, a.now);
    var item := Item(a.ip, a.mac, a.now + ttl);
    if k < |s.table| then State(s.table[k := item], s.accepted + [item]) else s
  }

  function Run(events: seq<Announcement>, ttl: nat): State {
    if events == [] then State(InitTable(), [])
    else Set(Run(events[..|events| - 1], ttl), events[|events| - 1], ttl)
  }

  /** The clock never goes back; it may stand still. */
  predicate Ordered(events: seq<Announcement>) {
    forall i, j :: 0 <= i < j < |events| ==> events[i].now <= events[j].now
  }

  /** The reference: the latest accepted announcement of an address. */
  function Latest(accepted: seq<Item>, ip: Ip): (r: Option<Item>)
    ensures r.Some? ==> r.value.ip == ip && r.value in accepted
  {
    if accepted == [] then None
    else if accepted[|accepted| - 1].ip == ip then Some(accepted[|accepted| - 1])
    else Latest(accepted[..|accepted| - 1], ip)
  }

  /** The reference answer at time now. */
  function Known(accepted: seq<Item>, ip: Ip, now: int): Option<Mac> {
    match Latest(accepted, ip)
    case Some(item) => if item.expireAt > now then Some(item.mac) else None
    case None => None
  }

  /** Entry i is the first one for its address. */
  predicate First(table: seq<Item>, i: nat)
    requires i < |table|
  {
    forall j :: 0 <= j < i ==> table[j].ip != table[i].ip
  }

  predicate HeldFirst(table: seq<Item>, item: Item) {
    exists i :: 0 <= i < |table| && table[i] == item && First(table, i)
  }

  /** No entry outlives the latest announcement of its address. */
  predicate NoneOutlives(s: State) {
    forall i :: 0 <= i < |s.table| && s.table[i].ip != NONE_IP ==>
      var latest := Latest(s.accepted, s.table[i].ip);
      latest.Some? && s.table[i].expireAt <= latest.value.expireAt
  }

  /** An announcement that has not expired is still held, before every older entry of its address. */
  ghost predicate LiveHeld(s: State, t: int) {
    forall ip: Ip :: ip != NONE_IP ==>
      var latest := Latest(s.accepted, ip);
      latest.Some? && latest.value.expireAt >= t ==> HeldFirst(s.table, latest.value)
  }

  /** The invariant at time t, the time of the last announcement. */
  ghost predicate Inv(s: State, t: int, ttl: nat) {
    && |s.table| == ARP_CACHE_LEN
    && NoneOutlives(s)
    && LiveHeld(s, t)
    && forall item <- s.accepted :: item.expireAt <= t + ttl
  }

  lemma LatestSnoc(accepted: seq<Item>, item: Item, ip: Ip)
    ensures Latest(accepted + [item], ip) == if item.ip == ip then Some(item) else Latest(accepted, ip)
  {
    assert (accepted + [item])[..|accepted|] == accepted;
  }

  lemma SetNoneOutlives(s: State, t: int, a: Announcement, ttl: nat)
    requires Inv(s, t, ttl) && t <= a.now
    ensures NoneOutlives(Set(s, a, ttl))
  {
    hide LiveHeld, Latest;
    var s' := Set(s, a, ttl);
    var item := Item(a.ip, a.mac, a.now + ttl);
    if s' != s {
      forall i | 0 <= i < |s'.table| && s'.table[i].ip != NONE_IP
        ensures Latest(s'.accepted, s'.table[i].ip).Some?
        ensures s'.table[i].expireAt <= Latest(s'.accepted, s'.table[i].ip).value.expireAt
      {
        LatestSnoc(s.accepted, item, s'.table[i].ip);
      }
    }
  }

  /** Writing one entry keeps what is held for another address in a live entry. */
  lemma StillHeld(table: seq<Item>, k: nat, item: Item, held: Item, now: int)
    requires k < |table| && Usable(table[k], item.ip, now)
    requires HeldFirst(table, held) && held.ip != NONE_IP && held.ip != item.ip && held.expireAt >= now
    ensures HeldFirst(table[k := item], held)
  {
    var i :| 0 <= i < |table| && table[i] == held && First(table, i);
    assert table[k := item][i] == held;
    assert First(table[k := item], i);
  }

  /** The entry written is the first for its address. */
  lemma WrittenFirst(table: seq<Item>, k: nat, item: Item, now: int)
    requires k < |table| && forall i :: 0 <= i < k ==> !Usable(table[i], item.ip, now)
    ensures HeldFirst(table[k := item], item)
  {
    assert table[k := item][k] == item;
    assert First(table[k := item], k);
  }

  lemma SetLiveHeld(s: State, t: int, a: Announcement, ttl: nat)
    requires Inv(s, t, ttl) && t <= a.now
    ensures LiveHeld(Set(s, a, ttl), a.now)
  {
    hide NoneOutlives, Latest, HeldFirst;
    var s' := Set(s, a, ttl);
    var item := Item(a.ip, a.mac, a.now + ttl);
    var k := UsableIndex(s.table, a.ip, a.now);
    if k < |s.table| {
      forall ip: Ip | ip != NONE_IP
        ensures var latest := Latest(s'.accepted, ip);
                latest.Some? && latest.value.expireAt >= a.now ==> HeldFirst(s'.table, latest.value)
      {
        LatestSnoc(s.accepted, item, ip);
        var latest := Latest(s.accepted, ip);
        if ip == a.ip {
          WrittenFirst(s.table, k, item, a.now);
        } else if latest.Some? && latest.value.expireAt >= a.now {
          StillHeld(s.table, k, item, latest.value, a.now);
        }
      }
    }
  }

  lemma SetKeepsInv(s: State, t: int, a: Announcement, ttl: nat)
    requires Inv(s, t, ttl) && t <= a.now
    ensures Inv(Set(s, a, ttl), a.now, ttl)
  {
    SetNoneOutlives(s, t, a, ttl);
    SetLiveHeld(s, t, a, ttl);
  }

  /** The time a state is current at. */
  function LastTime(events: seq<Announcement>, start: int): int {
    if events == [] then start else events[|events| - 1].now
  }

  lemma {:induction false} RunInv(events: seq<Announcement>, ttl: nat, start: int)
    requires Ordered(events)
    ensures Inv(Run(events, ttl), LastTime(events, start), ttl)
  {
    hide NoneOutlives, LiveHeld;
    if events == [] {
      InitInv(ttl, start);
    } else {
      var before, a := events[..|events| - 1], events[|events| - 1];
      RunInv(before, ttl, a.now);
      SetKeepsInv(Run(before, ttl), LastTime(before, a.now), a, ttl);
    }
  }

  lemma InitInv(ttl: nat, start: int)
    ensures Inv(State(InitTable(), []), start, ttl)
  {
  }

  /** Lookup under the invariant. */
  lemma LookupIsKnown(s: State, t: int, ttl: nat, ip: Ip, now: int)
    requires Inv(s, t, ttl) && t <= now && ip != NONE_IP
    ensures Lookup(s.table, ip, now) == Known(s.accepted, ip, now)
  {
    hide Latest;
    var k := AnswerIndex(s.table, ip, now);
    var latest := Latest(s.accepted, ip);
    if latest.Some? && latest.value.expireAt > now {
      assert HeldFirst(s.table, latest.value);
      var i :| 0 <= i < |s.table| && s.table[i] == latest.value && First(s.table, i);
      assert Answers(s.table[i], ip, now);
      assert k == i;
    }
  }

  /**
   After every run of announcements, at every later time, a lookup of a real
   address returns exactly what the latest accepted announcement says.
   */
  lemma LookupIsTimedMap(events: seq<Announcement>, ttl: nat, ip: Ip, now: int)
    requires Ordered(events) && LastTime(events, now) <= now && ip != NONE_IP
    ensures Lookup(Run(events, ttl).table, ip, now) == Known(Run(events, ttl).accepted, ip, now)
  {
    RunInv(events, ttl, now);
    LookupIsKnown(Run(events, ttl), LastTime(events, now), ttl, ip, now);
  }

  /** An announcement is refused exactly when every entry holds another address that has not expired. */
  predicate Full(table: seq<Item>, ip: Ip, now: int) {
    forall i :: 0 <= i < |table| ==>
      table[i].ip != NONE_IP && table[i].ip != ip && table[i].expireAt >= now
  }

  lemma RefusedIffFull(s: State, a: Announcement, ttl: nat)
    ensures Set(s, a, ttl) == s <==> Full(s.table, a.ip, a.now)
    ensures Full(s.table, a.ip, a.now) ==> forall item <- s.table :: item.ip != a.ip
  {
    var k := UsableIndex(s.table, a.ip, a.now);
    if k < |s.table| {
      assert Usable(s.table[k], a.ip, a.now);
      assert |Set(s, a, ttl).accepted| == |s.accepted| + 1;
    } else {
      forall i | 0 <= i < |s.table|
        ensures s.table[i].ip != NONE_IP && s.table[i].ip != a.ip && s.table[i].expireAt >= a.now
      {
        assert !Usable(s.table[i], a.ip, a.now);
      }
    }
  }

  /** So an address that is known when it is announced again is never refused. */
  lemma KnownIsRefreshed(events: seq<Announcement>, ttl: nat, a: Announcement)
    requires Ordered(events + [a]) && a.ip != NONE_IP
    requires Known(Run(events, ttl).accepted, a.ip, a.now).Some?
    ensures Run(events + [a], ttl).accepted == Run(events, ttl).accepted + [Item(a.ip, a.mac, a.now + ttl)]
  {
    var all := events + [a];
    assert all[..|all| - 1] == events && all[|all| - 1] == a;
    OrderedPrefix(events, a);
    LookupIsTimedMap(events, ttl, a.ip, a.now);
    var s := Run(events, ttl);
    assert Run(all, ttl) == Set(s, a, ttl);
    hide Run, Known, Latest;
    var k := AnswerIndex(s.table, a.ip, a.now);
    assert s.table[k].ip == a.ip;
    RefusedIffFull(s, a, ttl);
  }

  lemma OrderedPrefix(events: seq<Announcement>, a: Announcement)
    requires Ordered(events + [a])
    ensures Ordered(events) && LastTime(events, a.now) <= a.now
  {
    var all := events + [a];
    forall i, j | 0 <= i < j < |events|
      ensures events[i].now <= events[j].now
    {
      assert all[i].now <= all[j].now;
    }
    if events != [] {
      assert all[|events| - 1].now <= all[|events|].now;
    }
  }

  /** struct packet_ctx as far as the table goes. */
  class Table {
    const list: array<Item>
    const arpTtl: nat
    ghost var accepted: seq<Item>

    ghost function Model(): State
      reads this, list
    {
      State(list[..], accepted)
    }

    /** arp_list_init. */
    constructor (ttl: nat)
      ensures list.Length == ARP_CACHE_LEN && arpTtl == ttl && fresh(list)
      ensures Model() == Run([], ttl)
    {
      list := new Item[ARP_CACHE_LEN](_ => Item(NONE_IP, NONE_MAC, 0));
      arpTtl := ttl;
      accepted := [];
      new;
      assert list[..] == InitTable();
    }

    /** arp_set. */
    method SetEntry(mac: Mac, ip: Ip, now: int) returns (ok: bool)
      modifies this, list
      ensures Model() == Set(old(Model()), Announcement(now, mac, ip), arpTtl)
      ensures ok <==> !Full(old(list[..]), ip, now)
    {
      RefusedIffFull(Model(), Announcement(now, mac, ip), arpTtl);
      ghost var s, k := list[..], UsableIndex(list[..], ip, now);
      for i := 0 to list.Length
        invariant list[..] == s && accepted == old(accepted) && i <= k
      {
        if list[i].ip == NONE_IP || list[i].ip == ip || list[i].expireAt < now {
          assert Usable(s[i], ip, now) && k == i;
          list[i] := Item(ip, mac, now + arpTtl);
          accepted := accepted + [Item(ip, mac, now + arpTtl)];
          assert list[..] == s[k := Item(ip, mac, now + arpTtl)];
          return true;
        }
        assert !Usable(s[i], ip, now);
      }
      return false;
    }

    /** arp_has_ip. */
    method HasIp(ip: Ip, now: int) returns (found: bool)
      ensures found <==> Lookup(list[..], ip, now).Some?
    {
      ghost var k := AnswerIndex(list[..], ip, now);
      for i := 0 to list.Length
        invariant i <= k
      {
        if list[i].ip == ip && list[i].expireAt > now {
          assert Answers(list[..][i], ip, now);
          return true;
        }
        assert !Answers(list[..][i], ip, now);
      }
      return false;
    }

    /** arp_get_mac_by_ip: the MAC, or the address an ARP request is sent for. */
    method GetMacByIp(ip: Ip, now: int) returns (mac: Option<Mac>, asked: Option<Ip>)
      ensures mac == Lookup(list[..], ip, now)
      ensures asked == if mac.None? then Some(ip) else None
    {
      ghost var k := AnswerIndex(list[..], ip, now);
      for i := 0 to list.Length
        invariant i <= k
      {
        if list[i].ip == ip && list[i].expireAt > now {
          assert Answers(list[..][i], ip, now) && k == i;
          return Some(list[i].mac), None;
        }
        assert !Answers(list[..][i], ip, now);
      }
      return None, Some(ip);
    }
  }
}
