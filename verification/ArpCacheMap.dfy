// The hundred cache slots as a finite map with expiry.

module ArpCacheMap {
  import opened Machine
  import opened Routing
  import opened ArpSpec
  import opened ArpInvariant

  datatype Binding = Binding(mac: Mac, added: int)

  // The map of live bindings; a later slot overrides an earlier one.
  function CacheMap(entries: seq<Entry>): map<Ip, Binding> {
    if entries == [] then map[]
    else
      var last, m := entries[|entries| - 1], CacheMap(entries[..|entries| - 1]);
      if last.valid then m[last.ip := Binding(last.mac, last.added)] else m
  }

  // sr_arpcache_lookup reads the map.
  lemma {:induction false} LookupIsMap(entries: seq<Entry>, ip: Ip)
    ensures CacheLookup(entries, ip) == if ip in CacheMap(entries) then Some(CacheMap(entries)[ip].mac) else None
  {
    if entries != [] {
      LookupIsMap(entries[..|entries| - 1], ip);
    }
  }

  predicate HeldAt(entries: seq<Entry>, ip: Ip, i: nat) {
    i < |entries| && entries[i].valid && entries[i].ip == ip
  }

  lemma {:induction false} KeyIffHeld(entries: seq<Entry>, ip: Ip)
    ensures ip in CacheMap(entries) <==> exists i: nat :: HeldAt(entries, ip, i)
  {
    if entries != [] {
      var n := |entries| - 1;
      KeyIffHeld(entries[..n], ip);
      assert forall i: nat | i < n :: HeldAt(entries[..n], ip, i) <==> HeldAt(entries, ip, i);
      assert HeldAt(entries, ip, n) <==> entries[n].valid && entries[n].ip == ip;
    }
  }

  lemma {:induction false} HeldValue(entries: seq<Entry>, i: nat)
    requires UniqueValid(entries) && i < |entries| && entries[i].valid
    ensures entries[i].ip in CacheMap(entries)
    ensures CacheMap(entries)[entries[i].ip] == Binding(entries[i].mac, entries[i].added)
  {
    var n := |entries| - 1;
    if i < n {
      assert forall j | 0 <= j < n :: entries[..n][j] == entries[j];
      HeldValue(entries[..n], i);
    }
  }

  // As many bindings as valid slots: the map has at most as many as there are slots, and as many
  // exactly when no slot is free.
  lemma {:induction false} MapSize(entries: seq<Entry>)
    requires UniqueValid(entries)
    ensures |CacheMap(entries)| <= |entries|
    ensures |CacheMap(entries)| == |entries| <==> FreeSlot(entries) == |entries|
  {
    if entries != [] {
      var n := |entries| - 1;
      var front := entries[..n];
      assert forall j | 0 <= j < n :: front[j] == entries[j];
      MapSize(front);
      FreeSlotSnoc(front, entries[n]);
      assert entries == front + [entries[n]];
      if entries[n].valid {
        KeyIffHeld(front, entries[n].ip);
        assert entries[n].ip !in CacheMap(front);
      }
    }
  }

  lemma {:induction false} FreeSlotSnoc(front: seq<Entry>, e: Entry)
    ensures FreeSlot(front + [e]) == |front| + 1 <==> FreeSlot(front) == |front| && e.valid
  {
    if front != [] {
      assert (front + [e])[1..] == front[1..] + [e];
      FreeSlotSnoc(front[1..], e);
    } else {
      assert front + [e] == [e] && [e][1..] == [];
    }
  }

  // Inserting an address that is not bound: a new binding while fewer than all slots are taken,
  // no change otherwise. No live binding is overwritten.
  lemma InsertIsUpdate(entries: seq<Entry>, mac: Mac, ip: Ip, now: int)
    requires UniqueValid(entries) && ip !in CacheMap(entries)
    ensures var m := CacheMap(entries);
            CacheMap(InsertEntry(entries, mac, ip, now)) ==
            if |m| < |entries| then m[ip := Binding(mac, now)] else m
  {
    hide CacheMap, FreeSlot;
    var m, r, i := CacheMap(entries), InsertEntry(entries, mac, ip, now), FreeSlot(entries);
    MapSize(entries);
    if i < |entries| {
      KeyIffHeld(entries, ip);
      forall j | 0 <= j < |entries| && entries[j].valid ensures entries[j].ip != ip {
        assert HeldAt(entries, ip, j) <==> entries[j].ip == ip;
      }
      assert forall j | 0 <= j < |r| && j != i :: r[j] == entries[j];
      assert UniqueValid(r);
      SameBindings(entries, r, i, ip, Binding(mac, now));
    }
  }

  lemma SameBindings(entries: seq<Entry>, r: seq<Entry>, i: nat, ip: Ip, b: Binding)
    requires UniqueValid(entries) && UniqueValid(r) && |r| == |entries| && i < |r|
    requires !entries[i].valid && r[i] == Entry(b.mac, ip, b.added, true)
    requires forall j | 0 <= j < |r| && j != i :: r[j] == entries[j]
    ensures CacheMap(r) == CacheMap(entries)[ip := b]
  {
    hide CacheMap;
    var m := CacheMap(entries)[ip := b];
    forall x ensures x in CacheMap(r) <==> x in m {
      KeyIffHeld(r, x);
      KeyIffHeld(entries, x);
      assert HeldAt(r, ip, i);
      assert forall j: nat | j != i :: HeldAt(r, x, j) <==> HeldAt(entries, x, j);
    }
    forall x | x in m ensures CacheMap(r)[x] == m[x] {
      KeyIffHeld(r, x);
      var j: nat :| HeldAt(r, x, j);
      HeldValue(r, j);
      if j != i {
        HeldValue(entries, j);
        assert x != ip;
      }
    }
  }

  // One pass of the expiry loop keeps exactly the bindings at most 15 seconds old.
  lemma ExpireIsFilter(entries: seq<Entry>, now: int)
    requires UniqueValid(entries)
    ensures var m := CacheMap(entries);
            CacheMap(Expire(entries, now)) == map ip | ip in m && now - m[ip].added <= SR_ARPCACHE_TO :: m[ip]
  {
    hide CacheMap, Expire;
    var m, r := CacheMap(entries), Expire(entries, now);
    var kept := map ip | ip in m && now - m[ip].added <= SR_ARPCACHE_TO :: m[ip];
    assert UniqueValid(r);
    forall x ensures x in CacheMap(r) <==> x in kept {
      KeyIffHeld(r, x);
      KeyIffHeld(entries, x);
      forall j: nat | HeldAt(entries, x, j)
        ensures HeldAt(r, x, j) <==> now - m[x].added <= SR_ARPCACHE_TO
      {
        HeldValue(entries, j);
      }
      assert forall j: nat | HeldAt(r, x, j) :: HeldAt(entries, x, j);
    }
    forall x | x in kept ensures CacheMap(r)[x] == kept[x] {
      KeyIffHeld(r, x);
      var j: nat :| HeldAt(r, x, j);
      HeldValue(r, j);
      HeldValue(entries, j);
    }
  }

  // After the expiry pass at a given time no valid slot is older than the limit.
  lemma SweepLeavesFresh(c: Config, s: State, now: int)
    ensures forall i | 0 <= i < |s.entries| && SweepStep(c, s, now).entries[i].valid ::
              now - SweepStep(c, s, now).entries[i].added <= 15
  {
  }

  // ---------- Simulation ----------

  lemma SendIpKeepsEntries(c: Config, s: State, p: IpPacket, now: int)
    ensures SendIp(c, s, p, now).entries == s.entries
  {
    hide CacheLookup, RouteTo, Destination, Enqueue, ArpRequestFrame;
  }

  lemma {:induction false} SendAllKeepsEntries(c: Config, s: State, ws: seq<Waiting>, now: int)
    ensures SendAll(c, s, ws, now).entries == s.entries
    decreases |ws|
  {
    hide SendIp;
    if ws != [] {
      SendIpKeepsEntries(c, s, ws[0].packet, now);
      SendAllKeepsEntries(c, SendIp(c, s, ws[0].packet, now), ws[1..], now);
    }
  }

  // What an event does to the abstract map.
  ghost function MapStep(c: Config, m: map<Ip, Binding>, e: Event): map<Ip, Binding> {
    match e
    case Forward(_, _) => m
    case Arp(h, interface, now) =>
      if InterfaceOf(c, interface).ip == h.tip && h.sip !in m && |m| < 100
      then m[h.sip := Binding(h.sha, now)] else m
    case Sweep(now) => map ip | ip in m && now - m[ip].added <= 15 :: m[ip]
  }

  lemma StepRefinesMap(c: Config, s: State, e: Event)
    requires |s.entries| == SR_ARPCACHE_SZ && UniqueValid(s.entries)
    ensures CacheMap(Step(c, s, e).entries) == MapStep(c, CacheMap(s.entries), e)
  {
    hide CacheMap, CacheLookup, UniqueValid, SendAll, SendIp, InsertEntry, Expire, SweepRequests, ReplyFrame,
         FindRequest;
    match e
    case Forward(p, now) =>
      SendIpKeepsEntries(c, s.(accepted := s.accepted + multiset{p}), p, now);
    case Arp(h, interface, now) =>
      LookupIsMap(s.entries, h.sip);
      if h.sip !in CacheMap(s.entries) {
        InsertIsUpdate(s.entries, h.sha, h.sip, now);
        LearnEntries(c, s, h.sha, h.sip, now);
      }
    case Sweep(now) =>
      ExpireIsFilter(s.entries, now);
  }

  lemma LearnEntries(c: Config, s: State, mac: Mac, ip: Ip, now: int)
    ensures LearnStep(c, s, mac, ip, now).entries == InsertEntry(s.entries, mac, ip, now)
  {
    hide InsertEntry, SendAll;
    var i := FindRequest(s.requests, ip);
    if i < |s.requests| {
      var t := s.(entries := InsertEntry(s.entries, mac, ip, now), requests := Without(s.requests, i));
      SendAllKeepsEntries(c, t, s.requests[i].packets, now);
    }
  }

  ghost function MapRun(c: Config, events: seq<Event>): map<Ip, Binding> {
    if events == [] then map[] else MapStep(c, MapRun(c, events[..|events| - 1]), events[|events| - 1])
  }

  // Along every run the slots stand for the abstract map: a lookup reads it, it never holds more than
  // a hundred bindings, a live binding is never overwritten, and a full map ignores insertions.
  lemma {:induction false} RunRefinesMap(c: Config, events: seq<Event>, ip: Ip)
    requires forall i | 0 <= i < |events| :: Admissible(c, events[i])
    ensures var entries, m := Run(c, Initial(), events).entries, MapRun(c, events);
            && CacheMap(entries) == m && |m| <= 100
            && CacheLookup(entries, ip) == if ip in m then Some(m[ip].mac) else None
  {
    hide Step, CacheMap, CacheLookup, MapStep, QueueOk, Conserved, Spaced, Admissible, UniqueValid;
    var s := Run(c, Initial(), events);
    RunKeeps(c, events);
    MapSize(s.entries);
    LookupIsMap(s.entries, ip);
    if events == [] {
      EmptyCache();
    } else {
      var front := events[..|events| - 1];
      RunRefinesMap(c, front, ip);
      RunKeeps(c, front);
      StepRefinesMap(c, Run(c, Initial(), front), events[|events| - 1]);
    }
  }

  lemma EmptyCache()
    ensures CacheMap(Initial().entries) == map[]
  {
    var entries := Initial().entries;
    forall ip ensures ip !in CacheMap(entries) {
      KeyIffHeld(entries, ip);
      assert forall i: nat :: !HeldAt(entries, ip, i);
    }
  }
}
