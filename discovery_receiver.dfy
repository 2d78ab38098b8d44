/**
 * `DiscoveryReceiver` (src/discovery.receiver.ts): it parses every
 * universe discovery packet it receives, keeps one `Source` per CID text
 * and address, re-arms a timeout on every packet that carries a list, and
 * forgets a source whose timeout fires. The socket is left out: a datagram
 * arrives as a call of OnMessage with its bytes, the sender's address and
 * the current time, and a timeout that Node's event loop runs is a call of
 * FireDue.
 */
module DiscoveryReceivers {
  import opened Bytes
  import opened PacketLayout
  import opened DiscoveryPackets
  import opened SourceTables
  import opened TimerQueues

  class DiscoveryReceiver {
    /** `Buffer.toString('utf8')` on a CID, which is in Node and not part of this model. */
    const cidText: seq<Byte> -> string

    /** `privateSources`, by key. */
    var sources: map<string, Source>
    /** The keys of `privateSources` in insertion order, the order `for ... in` visits them. */
    var order: seq<string>
    /** The pending timeouts of `#sourcesID`, in the order they fire. */
    var timers: seq<Timer<string>>
    /** The time (ms) of the last message or fired timeout. */
    var clock: int
    /** Every event emitted so far. */
    var events: seq<Event>

    ghost predicate Valid()
      reads this
    {
      TableValid(sources, order, timers, clock) && FiledByKey(sources)
    }

    constructor (cidText: seq<Byte> -> string, now: int)
      ensures Valid()
      ensures this.cidText == cidText && clock == now
      ensures sources == map[] && order == [] && timers == [] && events == []
    {
      this.cidText := cidText;
      sources := map[];
      order := [];
      timers := [];
      clock := now;
      events := [];
    }

    /**
     * The 'message' handler. A buffer the packet constructor rejects is
     * reported and changes nothing else. A known source is marked heard
     * before its list is read, so a list that cannot be read leaves it
     * marked heard with its pages and its timeout as they were; otherwise
     * the list is stored by page (page 0 starts over). An unknown source
     * is added, and announced, only when its list can be read. Every
     * packet whose list was read re-arms its source's timeout and is
     * emitted last.
     */
    method OnMessage(msg: seq<Byte>, address: string, now: int)
      requires Valid() && clock <= now
      modifies this
      ensures Valid() && clock == now
      ensures var parsed := ParseDiscovery(msg, Some(address));
        parsed.Failure? ==>
          && sources == old(sources) && order == old(order) && timers == old(timers)
          && events == old(events) + [Rejected(parsed.error)]
      ensures var parsed := ParseDiscovery(msg, Some(address));
        parsed.Success? ==>
          var p := parsed.value;
          var key := cidText(p.cid) + address;
          var list := ListOf(p);
          && (key in old(sources) && list.Failure? ==>
                && sources == old(sources)[key := old(sources)[key].(lastHeard := now)]
                && order == old(order) && timers == old(timers)
                && events == old(events) + [Rejected(list.error)])
          && (key in old(sources) && list.Success? ==>
                && sources == old(sources)[key := old(sources)[key].(
                     lastHeard := now, pages := NewPages(old(sources)[key].pages, p.page, list.value))]
                && order == old(order) && timers == Rearm(old(timers), key, now)
                && events == old(events) + [PacketReceived(p)])
          && (key !in old(sources) && list.Failure? ==>
                && sources == old(sources) && order == old(order) && timers == old(timers)
                && events == old(events) + [Rejected(list.error)])
          && (key !in old(sources) && list.Success? ==>
                var source := Source(cidText(p.cid), p.sourceName, Some(address), now, map[p.page := list.value]);
                && sources == old(sources)[key := source]
                && order == old(order) + [key] && timers == Rearm(old(timers), key, now)
                && events == old(events) + [SourceDetected(source), PacketReceived(p)])
    {
      var parsed := ParseDiscovery(msg, Some(address));
      if parsed.Failure? {
        Reject(parsed.error, now);
        return;
      }
      var packet := parsed.value;
      var key := cidText(packet.cid) + address;
      if key in sources {
        Refresh(key, packet, now);
      } else {
        Detect(key, packet, now);
      }
    }

    /** The `catch` of the handler: the error is emitted and nothing else changes. */
    method Reject(e: ParseError, now: int)
      requires Valid() && clock <= now
      modifies this
      ensures Valid() && clock == now
      ensures sources == old(sources) && order == old(order) && timers == old(timers)
      ensures events == old(events) + [Rejected(e)]
    {
      QueueLater(timers, clock, now);
      clock := now;
      events := events + [Rejected(e)];
    }

    /**
     * A packet of a known source: it is marked heard, then its list is
     * read; a list that reads stores its page, re-arms the timeout and the
     * packet is emitted.
     */
    method Refresh(key: string, packet: DiscoveryPacket, now: int)
      requires Valid() && clock <= now && key in sources
      modifies this
      ensures Valid() && clock == now && order == old(order)
      ensures ListOf(packet).Failure? ==>
        && sources == old(sources)[key := old(sources)[key].(lastHeard := now)]
        && timers == old(timers)
        && events == old(events) + [Rejected(ListOf(packet).error)]
      ensures ListOf(packet).Success? ==>
        && sources == old(sources)[key := old(sources)[key].(
             lastHeard := now, pages := NewPages(old(sources)[key].pages, packet.page, ListOf(packet).value))]
        && timers == Rearm(old(timers), key, now)
        && events == old(events) + [PacketReceived(packet)]
    {
      MarkHeard(key, now);
      var list := List(packet);
      if list.Failure? {
        events := events + [Rejected(list.error)];
        return;
      }
      ghost var heard := sources;
      StorePage(key, packet, list.value);
      UpdateTwice(old(sources), key, heard[key], sources[key]);
    }

    /** `source.lastHeard = Date.now()`. */
    method MarkHeard(key: string, now: int)
      requires Valid() && clock <= now && key in sources
      modifies this
      ensures Valid() && clock == now
      ensures sources == old(sources)[key := old(sources)[key].(lastHeard := now)]
      ensures order == old(order) && timers == old(timers) && events == old(events)
    {
      var source := sources[key].(lastHeard := now);
      UpdateValid(sources, order, timers, clock, now, key, source, false);
      sources, clock := sources[key := source], now;
    }

    /** The list of a known source's packet is stored, its timeout re-armed and the packet emitted. */
    method StorePage(key: string, packet: DiscoveryPacket, list: Payload)
      requires Valid() && key in sources
      modifies this
      ensures Valid() && clock == old(clock) && order == old(order)
      ensures sources == old(sources)[key := old(sources)[key].(pages := NewPages(old(sources)[key].pages, packet.page, list))]
      ensures timers == Rearm(old(timers), key, clock)
      ensures events == old(events) + [PacketReceived(packet)]
    {
      var source := sources[key].(pages := NewPages(sources[key].pages, packet.page, list));
      UpdateValid(sources, order, timers, clock, clock, key, source, true);
      sources := sources[key := source];
      SetSourceTimeout(key);
      events := events + [PacketReceived(packet)];
    }

    /**
     * A packet of an unknown source: when its list reads, the source is
     * added and announced, its timeout armed and the packet emitted.
     */
    method Detect(key: string, packet: DiscoveryPacket, now: int)
      requires Valid() && clock <= now && key !in sources
      requires packet.sourceAddress.Some? && key == cidText(packet.cid) + packet.sourceAddress.value
      modifies this
      ensures Valid() && clock == now
      ensures ListOf(packet).Failure? ==>
        && sources == old(sources) && order == old(order) && timers == old(timers)
        && events == old(events) + [Rejected(ListOf(packet).error)]
      ensures ListOf(packet).Success? ==>
        var source := Source(cidText(packet.cid), packet.sourceName, packet.sourceAddress, now,
                             map[packet.page := ListOf(packet).value]);
        && sources == old(sources)[key := source]
        && order == old(order) + [key] && timers == Rearm(old(timers), key, now)
        && events == old(events) + [SourceDetected(source), PacketReceived(packet)]
    {
      var list := List(packet);
      if list.Failure? {
        Reject(list.error, now);
        return;
      }
      var source := Source(cidText(packet.cid), packet.sourceName, packet.sourceAddress, now,
                           map[packet.page := list.value]);
      AddSource(key, source, now);
      events := events + [PacketReceived(packet)];
    }

    /** A new source joins the table, is announced and has its timeout armed. */
    method AddSource(key: string, source: Source, now: int)
      requires Valid() && clock <= now && key !in sources && KeyOf(source) == Some(key)
      modifies this
      ensures Valid() && clock == now
      ensures sources == old(sources)[key := source] && order == old(order) + [key]
      ensures timers == Rearm(old(timers), key, now)
      ensures events == old(events) + [SourceDetected(source)]
    {
      InsertValid(sources, order, timers, clock, now, key, source);
      QueueLater(timers, clock, now);
      sources, order, clock := sources[key := source], order + [key], now;
      events := events + [SourceDetected(source)];
      SetSourceTimeout(key);
    }

    /** `setSourceTimeout(key)`: clear key's pending timeout and arm a new one. */
    method SetSourceTimeout(key: string)
      requires QueueValid(timers, clock)
      modifies this
      ensures QueueValid(timers, clock)
      ensures timers == Rearm(old(timers), key, clock)
      ensures sources == old(sources) && order == old(order) && events == old(events) && clock == old(clock)
    {
      RearmValid(timers, key, clock, clock);
      timers := Rearm(timers, key, clock);
    }

    /**
     * The timeout callback of key: emit 'sourceTimeout' with its source,
     * then delete it from the table and from the pending timeouts.
     */
    method Timeout(key: string)
      requires Valid() && key in sources
      modifies this
      ensures Valid()
      ensures events == old(events) + [SourceTimeout(old(sources)[key])]
      ensures sources == old(sources) - {key}
      ensures order == Keep(old(order), {key})
      ensures timers == KeepTimers(old(timers), {key})
      ensures clock == old(clock)
    {
      RemoveValid(sources, order, timers, clock, key);
      events := events + [SourceTimeout(sources[key])];
      sources, order, timers := sources - {key}, Keep(order, {key}), KeepTimers(timers, {key});
    }

    /**
     * Node's event loop runs the timeout at the front of the queue once
     * it is due at now: that source is reported and forgotten.
     */
    method FireDue(now: int)
      requires Valid() && clock <= now && timers != [] && timers[0].due <= now
      modifies this
      ensures Valid() && clock == now
      ensures old(timers)[0].key in old(sources)
      ensures events == old(events) + [SourceTimeout(old(sources)[old(timers)[0].key])]
      ensures sources == old(sources) - {old(timers)[0].key}
      ensures order == Keep(old(order), {old(timers)[0].key})
      ensures timers == old(timers)[1..]
    {
      QueueLater(timers, clock, now);
      clock := now;
      KeepFront(timers);
      Timeout(timers[0].key);
    }

    /** The sources getter: the sources numbered 1, 2, ... in insertion order. */
    method SourceList() returns (view: map<int, Source>)
      requires Valid()
      ensures |order| == |sources|
      ensures forall i :: i in view <==> 1 <= i <= |order|
      ensures forall i :: 1 <= i <= |order| ==> order[i - 1] in sources && view[i] == sources[order[i - 1]]
    {
      TableCount(sources, order);
      OrderedKeysFiled(sources, order);
      view := Number(order, sources);
    }
  }

  /** The loop of the sources getter: entry i is the source of the i-th key. */
  method Number(keys: seq<string>, table: map<string, Source>) returns (view: map<int, Source>)
    requires forall j :: 0 <= j < |keys| ==> keys[j] in table
    ensures forall i :: i in view <==> 1 <= i <= |keys|
    ensures forall i :: 1 <= i <= |keys| ==> view[i] == table[keys[i - 1]]
  {
    view := map[];
    var i := 1;
    while i <= |keys|
      invariant 1 <= i <= |keys| + 1
      invariant forall j :: j in view <==> 1 <= j < i
      invariant forall j :: 1 <= j < i ==> view[j] == table[keys[j - 1]]
    {
      view := view[i := table[keys[i - 1]]];
      i := i + 1;
    }
  }
}
