// struct sr_arpcache: the slot array and the queue of request objects, updated in place.

module ArpCaching {
  import opened Machine
  import opened Routing
  import opened ArpSpec

  class ArpRequest {
    const ip: Ip
    var sent: int
    var timesSent: nat
    var packets: seq<Waiting>

    constructor (ip: Ip)
      ensures this.ip == ip && sent == 0 && timesSent == 0 && packets == []
    {
      this.ip := ip;
      sent, timesSent, packets := 0, 0, [];
    }

    ghost function Value(): Request
      reads this
    {
      Request(ip, sent, timesSent, packets)
    }
  }

  ghost function ValuesOf(requests: seq<ArpRequest>): (v: seq<Request>)
    reads requests
    ensures |v| == |requests| && forall i | 0 <= i < |requests| :: v[i] == requests[i].Value()
  {
    seq(|requests|, i requires 0 <= i < |requests| reads requests => requests[i].Value())
  }

  predicate Bound(e: Entry, ip: Ip) {
    e.valid && e.ip == ip
  }

  ghost predicate NoRepeats(requests: seq<ArpRequest>) {
    forall i, j | 0 <= i < j < |requests| :: requests[i] != requests[j]
  }

  lemma TakenOut(requests: seq<ArpRequest>, i: nat)
    requires NoRepeats(requests) && i < |requests|
    ensures var rest := requests[..i] + requests[i + 1..];
            && NoRepeats(rest) && requests[i] !in rest
            && (forall r | r in rest :: r in requests)
            && ValuesOf(rest) == Without(ValuesOf(requests), i)
  {
  }

  class ArpCache {
    const entries: array<Entry>
    var requests: seq<ArpRequest>

    ghost predicate Valid()
      reads this
    {
      entries.Length == SR_ARPCACHE_SZ && NoRepeats(requests)
    }

    ghost function Values(): seq<Request>
      reads this, requests
    {
      ValuesOf(requests)
    }

    constructor ()
      ensures Valid() && fresh(entries) && requests == []
      ensures entries[..] == Initial().entries
    {
      entries := new Entry[SR_ARPCACHE_SZ](_ => EMPTY_SLOT);
      requests := [];
    }

    // A copy of the last valid slot with the address.
    method Lookup(ip: Ip) returns (entry: Option<Entry>)
      requires Valid()
      ensures match entry
              case None => CacheLookup(entries[..], ip).None?
              case Some(e) => e in entries[..] && Bound(e, ip) && CacheLookup(entries[..], ip) == Some(e.mac)
      ensures entry.Some? ==> exists i | 0 <= i < SR_ARPCACHE_SZ ::
                entries[i] == entry.value && forall j | i < j < SR_ARPCACHE_SZ :: !Bound(entries[j], ip)
    {
      entry := None;
      var i := 0;
      ghost var last := 0;
      while i < SR_ARPCACHE_SZ
        invariant i <= SR_ARPCACHE_SZ
        invariant entry.None? ==> CacheLookup(entries[..i], ip).None?
        invariant entry.Some? ==> 0 <= last < i && entries[last] == entry.value && Bound(entry.value, ip) &&
                                  CacheLookup(entries[..i], ip) == Some(entry.value.mac)
        invariant entry.Some? ==> forall j | last < j < i :: !Bound(entries[j], ip)
      {
        if entries[i].valid && entries[i].ip == ip {
          entry := Some(entries[i]);
          last := i;
        }
        assert entries[..i + 1][..i] == entries[..i];
        i := i + 1;
      }
      assert entries[..SR_ARPCACHE_SZ] == entries[..];
    }

    // Position of the first request for the address, or the length of the queue.
    method Find(ip: Ip) returns (i: nat)
      ensures i == FindRequest(Values(), ip)
    {
      i := 0;
      while i < |requests| && requests[i].ip != ip
        invariant i <= |requests|
        invariant forall j | 0 <= j < i :: requests[j].ip != ip
      {
        i := i + 1;
      }
      if i < |requests| {
        FirstRequest(Values(), ip, i);
      } else {
        AbsentRequest(Values(), ip);
      }
    }

    method QueueRequest(ip: Ip, w: Waiting) returns (request: ArpRequest)
      requires Valid()
      modifies this`requests, requests
      ensures Valid()
      ensures Values() == Enqueue(old(Values()), ip, w)
      ensures request in requests && requests[FindRequest(Values(), ip)] == request
      ensures forall r | r in requests :: r in old(requests) || fresh(r)
    {
      hide FindRequest, NoRepeats;
      ghost var before, k := Values(), 0;
      var i := Find(ip);
      if i < |requests| {
        request, k := requests[i], i;
      } else {
        request := PushRequest(ip);
        assert [w] + [] == [w];
      }
      AddPacket(request, w, k);
      assert Values() == Enqueue(before, ip, w);
    }

    method PushRequest(ip: Ip) returns (request: ArpRequest)
      requires Valid()
      modifies this`requests
      ensures Valid() && fresh(request) && requests == [request] + old(requests)
      ensures Values() == [Request(ip, 0, 0, [])] + old(Values())
    {
      request := new ArpRequest(ip);
      requests := [request] + requests;
    }

    method AddPacket(request: ArpRequest, w: Waiting, ghost k: nat)
      requires Valid() && k < |requests| && requests[k] == request
      modifies request
      ensures Values() == old(Values())[k := request.Value()]
      ensures request.Value() == old(request.Value()).(packets := [w] + old(request.packets))
    {
      request.packets := [w] + request.packets;
    }

    // The queue loses the request for the address.
    method Unlink(ip: Ip) returns (request: ArpRequest?)
      requires Valid()
      modifies this`requests
      ensures Valid()
      ensures var i := FindRequest(old(Values()), ip);
              if i < |old(requests)| then
                request == old(requests[i]) && request !in requests && Values() == Without(old(Values()), i)
              else request == null && requests == old(requests)
      ensures forall r | r in requests :: r in old(requests)
    {
      hide FindRequest, NoRepeats, Without;
      var i := Find(ip);
      request := null;
      if i < |requests| {
        request := requests[i];
        TakenOut(requests, i);
        requests := requests[..i] + requests[i + 1..];
      }
    }

    // Unlinks the request for the address; the first free slot takes the mapping.
    method Insert(mac: Mac, ip: Ip, now: int) returns (request: ArpRequest?)
      requires Valid()
      modifies this`requests, entries
      ensures Valid()
      ensures entries[..] == InsertEntry(old(entries[..]), mac, ip, now)
      ensures var i := FindRequest(old(Values()), ip);
              if i < |old(requests)| then
                request == old(requests[i]) && request !in requests && Values() == Without(old(Values()), i)
              else request == null && requests == old(requests)
      ensures forall r | r in requests :: r in old(requests)
    {
      request := Unlink(ip);
      var slot := 0;
      while slot < SR_ARPCACHE_SZ && entries[slot].valid
        invariant slot <= SR_ARPCACHE_SZ
        invariant forall j | 0 <= j < slot :: entries[j].valid
      {
        slot := slot + 1;
      }
      assert slot == FreeSlot(entries[..]);
      if slot != SR_ARPCACHE_SZ {
        entries[slot] := Entry(mac, ip, now, true);
      }
    }

    // Unlinks the request, if there is one and it is queued; its packets go with it.
    method Destroy(request: ArpRequest?)
      requires Valid()
      modifies this`requests
      ensures Valid()
      ensures request == null || request !in old(requests) ==> requests == old(requests)
      ensures forall i | 0 <= i < |old(requests)| && old(requests)[i] == request ::
                requests == old(requests)[..i] + old(requests)[i + 1..] && Values() == Without(old(Values()), i)
    {
      if request != null {
        var j := 0;
        while j < |requests| && requests[j] != request
          invariant j <= |requests|
          invariant request !in requests[..j]
        {
          j := j + 1;
        }
        if j < |requests| {
          TakenOut(requests, j);
          requests := requests[..j] + requests[j + 1..];
        }
      }
    }

    // The expiry loop of sr_arpcache_timeout.
    method ExpireAll(now: int)
      requires Valid()
      modifies entries
      ensures entries[..] == Expire(old(entries[..]), now)
    {
      var i := 0;
      while i < SR_ARPCACHE_SZ
        invariant i <= SR_ARPCACHE_SZ
        invariant forall j | 0 <= j < i :: entries[j] == ExpireEntry(old(entries[j]), now)
        invariant forall j | i <= j < SR_ARPCACHE_SZ :: entries[j] == old(entries[j])
      {
        if entries[i].valid && now - entries[i].added > SR_ARPCACHE_TO {
          entries[i] := entries[i].(valid := false);
        }
        i := i + 1;
      }
    }
  }
}
