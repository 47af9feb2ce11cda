/** The listener that hands messages of many clients to one packet object per client. */
module InjectionEvents {
  import opened Common
  import opened PacketFraming

  datatype Delivery = Delivery(client: nat, frame: Frame)

  datatype Event = Event(client: nat, msg: Bytes)

  const KEYS := 0x1_0000_0000

  /** Client ids are 64-bit, but the packet map is indexed by 32-bit numbers. */
  function Key(client: nat): nat {
    client % KEYS
  }

  type Clients = map<nat, PacketState>

  predicate AllUsable(w: Wire, clients: Clients) {
    forall k | k in clients :: w.Usable(clients[k])
  }

  function Lookup(clients: Clients, key: nat): Option<PacketState> {
    if key in clients then Some(clients[key]) else None
  }

  function Store(clients: Clients, key: nat, p: Option<PacketState>): Clients {
    if p.None? then clients - {key} else clients[key := p.value]
  }

  function Addressed(client: nat, frames: seq<Frame>): seq<Delivery> {
    if frames == [] then [] else [Delivery(client, frames[0])] + Addressed(client, frames[1..])
  }

  class InjectionEvent {
    const wire: Wire
    /** The packet types that have a handler; they are registered before the listener starts. */
    const handled: set<PacketType>
    var packetMap: map<nat, Packet?>
    /** The handler calls made so far. */
    var delivered: seq<Delivery>
    /** What the packet objects in the map hold. */
    ghost var clients: Clients
    /** The packet objects made so far. */
    ghost var packets: set<Packet>

    constructor (wire: Wire, handled: set<PacketType>)
      requires wire.Valid()
      ensures Valid() && packets == {} && clients == map[] && delivered == []
      ensures this.wire == wire && this.handled == handled
    {
      this.wire, this.handled := wire, handled;
      packetMap, delivered, clients, packets := map[], [], map[], {};
    }

    /** `clients` is up to date.  A packet remembers the client it was made for, so no two keys
        share one. */
    ghost predicate Valid()
      reads this, packets
    {
      && wire.Valid()
      && (forall k | k in clients :: k in packetMap && packetMap[k] != null)
      && (forall k | k in packetMap && packetMap[k] != null ::
            && k in clients && packetMap[k] in packets
            && packetMap[k].State() == clients[k] && Key(packetMap[k].clientId) == k)
    }

    /** The packet object of a client, made on first use and after every reset. */
    method PacketFor(clientId: nat) returns (packet: Packet)
      requires Valid()
      modifies this`packetMap, this`packets, this`clients
      ensures Valid() && fresh(packets - old(packets)) && old(packets) <= packets
      ensures Key(clientId) in packetMap && packetMap[Key(clientId)] == packet
      ensures packet.State() == Current(Lookup(old(clients), Key(clientId)))
      ensures clients == old(clients)[Key(clientId) := packet.State()]
    {
      var key := Key(clientId);
      if key !in packetMap || packetMap[key] == null {
        var created := new Packet(clientId);
        packetMap := packetMap[key := created];
        packets := packets + {created};
        clients := clients[key := FRESH_PACKET];
      }
      packet := packetMap[key];
    }

    method Receive(clientId: nat, packet: Packet, msg: Bytes, idx: nat) returns (ret: ParseRet, next: nat)
      requires Valid() && Key(clientId) in packetMap && packetMap[Key(clientId)] == packet
      requires idx <= |msg| && wire.Usable(packet.State())
      modifies this`clients, packet
      ensures Valid()
      ensures var r := Step(wire, old(packet.State()), msg[idx..]);
              && ret == r.ret && next == idx + r.used && packet.State() == r.state
              && clients == old(clients)[Key(clientId) := r.state]
    {
      ret, next := packet.ProcessMsg(wire, msg, idx);
      clients := clients[Key(clientId) := packet.State()];
    }

    method Drop(clientId: nat)
      requires Valid()
      modifies this`packetMap, this`clients
      ensures Valid() && clients == old(clients) - {Key(clientId)}
    {
      packetMap := packetMap[Key(clientId) := null];
      clients := clients - {Key(clientId)};
    }

    /** One pass of the loop in Distribute: the packet is looked up or made, takes its bytes, and
        is delivered, dropped or kept. */
    method Pass(clientId: nat, msg: Bytes, idx: nat) returns (next: nat, ghost frames: seq<Frame>)
      requires Valid() && AllUsable(wire, clients) && idx < |msg|
      modifies this, packets
      ensures Valid() && fresh(packets - old(packets)) && old(packets) <= packets
      ensures delivered == old(delivered) + Addressed(clientId, frames)
      ensures var r := Step(wire, Current(Lookup(old(clients), Key(clientId))), msg[idx..]);
              && next == idx + r.used && frames == Finished(handled, r)
              && clients == Store(old(clients), Key(clientId), Kept(handled, r))
    {
      hide Step, Wire.Known, Addressed;
      var packet := PacketFor(clientId);
      var ret;
      ret, next := Receive(clientId, packet, msg, idx);
      StoredAnyway(old(clients), Key(clientId), Current(Lookup(old(clients), Key(clientId))), packet.State());
      frames := [];
      AddressedOne(clientId, Frame(packet.head.kind, packet.askMsg));
      if ret == FAILED {
        Drop(clientId);
      } else if ret == SUCCESS && packet.head.kind in handled {
        frames := [Frame(packet.head.kind, packet.askMsg)];
        delivered := delivered + [Delivery(clientId, Frame(packet.head.kind, packet.askMsg))];
        Drop(clientId);
      }
    }

    lemma Present(key: nat)
      requires Valid()
      ensures wire.Valid() && (key in packetMap && packetMap[key] != null <==> Lookup(clients, key).Some?)
    {
    }

    /** Handles one message. Where the loop would repeat a pass for ever, a frame without a handler being followed by
        bytes (see HangsOnlyOnUnhandled and HungPassRepeats), the method stops and says so. */
    method Distribute(clientId: nat, msg: Bytes) returns (hung: bool)
      requires Valid() && AllUsable(wire, clients)
      modifies this, packets
      ensures Valid() && fresh(packets - old(packets)) && old(packets) <= packets
      ensures clients == Store(old(clients), Key(clientId), Lookup(clients, Key(clientId)))
      ensures var o := Run(wire, handled, Lookup(old(clients), Key(clientId)), msg);
              && hung == o.Hung?
              && delivered == old(delivered) + Addressed(clientId, o.frames)
              && (o.Done? ==> Lookup(clients, Key(clientId)) == o.client)
    {
      hide *;
      hung := false;
      var idx := 0;
      ghost var key := Key(clientId);
      Present(key);
      LoopStarts(wire, handled, clients, key, msg);
      ghost var goal := Run(wire, handled, Lookup(clients, key), msg);
      ghost var sent: seq<Frame> := [];
      assert delivered + [] == delivered;
      while idx < |msg|
        invariant 0 <= idx <= |msg|
        invariant Valid() && fresh(packets - old(packets)) && old(packets) <= packets
        invariant AllUsable(wire, clients) && clients == Store(old(clients), key, Lookup(clients, key))
        invariant wire.Valid() && ClientUsable(wire, Lookup(clients, key))
        invariant delivered == old(delivered) + Addressed(clientId, sent)
        invariant Run(wire, handled, Lookup(clients, key), msg[idx..]).After(sent) == goal
        decreases |msg| - idx, if Lookup(clients, key).None? then 0 else 1
      {
        PassAdvances(wire, handled, old(clients), clients, clientId, msg, idx, sent);
        ghost var frames;
        var next;
        next, frames := Pass(clientId, msg, idx);
        sent := sent + frames;
        Present(Key(clientId));
        if next == idx && Key(clientId) in packetMap && packetMap[Key(clientId)] != null {
          return true;
        }
        idx := next;
      }
      LoopEnds(wire, handled, clients, key, msg, sent);
    }

    /** The listening loop over the messages received between start and stop; it ends early in a message that hangs. */
    method DisposeAsk(events: seq<Event>) returns (hung: bool)
      requires Valid() && AllUsable(wire, clients)
      modifies this, packets
      ensures Valid() && fresh(packets - old(packets)) && old(packets) <= packets
      ensures var net := Serve(wire, handled, old(clients), events);
              && hung == net.None? && old(delivered) <= delivered
              && (net.Some? ==> clients == net.value.clients && delivered == old(delivered) + net.value.sent)
    {
      hide Run, Serve, Step, Addressed, Wire.Known, Key;
      hung := false;
      var n := 0;
      ghost var goal := Serve(wire, handled, clients, events);
      ghost var sent: seq<Delivery> := [];
      ServeBegins(goal, events);
      while n < |events|
        invariant 0 <= n <= |events|
        invariant Valid() && fresh(packets - old(packets)) && old(packets) <= packets
        invariant AllUsable(wire, clients) && delivered == old(delivered) + sent
        invariant Resumed(sent, Serve(wire, handled, clients, events[n..])) == goal
      {
        var e := events[n];
        assert events[n..] == [e] + events[n + 1..];
        ServeFirst(wire, handled, clients, e, events[n + 1..], sent);
        ghost var o := Run(wire, handled, Lookup(clients, Key(e.client)), e.msg);
        hung := Distribute(e.client, e.msg);
        sent := sent + Addressed(e.client, o.frames);
        if hung {
          return;
        }
        n := n + 1;
      }
      ServeEnds(wire, handled, clients, events[n..], sent);
    }
  }

  lemma ServeBegins(net: Option<Net>, events: seq<Event>)
    ensures events[0..] == events && Resumed([], net) == net
  {
    if net.Some? { assert [] + net.value.sent == net.value.sent; }
  }

  lemma ServeEnds(w: Wire, handled: set<PacketType>, clients: Clients, events: seq<Event>, sent: seq<Delivery>)
    requires w.Valid() && AllUsable(w, clients) && events == []
    ensures Resumed(sent, Serve(w, handled, clients, events)) == Some(Net(clients, sent))
  {
    assert sent + [] == sent;
  }

  lemma LoopStarts(w: Wire, handled: set<PacketType>, clients: Clients, key: nat, msg: Bytes)
    requires w.Valid() && AllUsable(w, clients)
    ensures clients == Store(clients, key, Lookup(clients, key))
    ensures ClientUsable(w, Lookup(clients, key)) && forall c :: Addressed(c, []) == []
    ensures Run(w, handled, Lookup(clients, key), msg[0..]).After([]) == Run(w, handled, Lookup(clients, key), msg)
  {
    assert msg[0..] == msg;
    AfterNothing(Run(w, handled, Lookup(clients, key), msg));
  }

  lemma LoopEnds(w: Wire, handled: set<PacketType>, clients: Clients, key: nat, msg: Bytes, sent: seq<Frame>)
    requires w.Valid() && AllUsable(w, clients)
    ensures Run(w, handled, Lookup(clients, key), msg[|msg|..]).After(sent) == Done(Lookup(clients, key), sent)
  {
    assert msg[|msg|..] == [];
    assert sent + [] == sent;
  }

  /** What one pass does to the loop's invariant. */
  lemma PassAdvances(w: Wire, handled: set<PacketType>, before: Clients, clients: Clients, client: nat,
                     msg: Bytes, idx: nat, sent: seq<Frame>)
    requires w.Valid() && AllUsable(w, clients) && idx < |msg|
    requires clients == Store(before, Key(client), Lookup(clients, Key(client)))
    ensures var key := Key(client);
            var r := Step(w, Current(Lookup(clients, key)), msg[idx..]);
            var next := Store(clients, key, Kept(handled, r));
            var o := Run(w, handled, Lookup(clients, key), msg[idx..]);
            && AllUsable(w, next) && next == Store(before, key, Lookup(next, key))
            && ClientUsable(w, Lookup(next, key)) && Lookup(next, key) == Kept(handled, r)
            && (if r.used == 0 && Lookup(next, key).Some?
                then o.After(sent) == Hung(sent + Finished(handled, r))
                else o.After(sent)
                       == Run(w, handled, Lookup(next, key), msg[idx + r.used..]).After(sent + Finished(handled, r)))
            && Addressed(client, sent + Finished(handled, r))
                 == Addressed(client, sent) + Addressed(client, Finished(handled, r))
            && (r.used == 0 && Lookup(next, key).None? ==> Lookup(clients, key).Some?)
  {
    var key := Key(client);
    var r := Step(w, Current(Lookup(clients, key)), msg[idx..]);
    RunPass(w, handled, Lookup(clients, key), msg[idx..]);
    assert msg[idx..][r.used..] == msg[idx + r.used..];
    AfterTwice(Run(w, handled, Kept(handled, r), msg[idx + r.used..]), sent, Finished(handled, r));
    AddressedConcat(client, sent, Finished(handled, r));
    StoreTwice(before, key, Lookup(clients, key), Kept(handled, r));
  }

  /** Making the packet first leaves no trace once the outcome of the pass is stored. */
  lemma StoredAnyway(clients: Clients, key: nat, first: PacketState, p: PacketState)
    ensures clients[key := first][key := p] == Store(clients, key, Some(p))
    ensures clients[key := first][key := p] - {key} == Store(clients, key, None)
  {
  }

  lemma AddressedOne(client: nat, f: Frame)
    ensures Addressed(client, []) == [] && Addressed(client, [f]) == [Delivery(client, f)]
  {
    var none: seq<Frame> := [];
    assert [f][1..] == none;
  }

  lemma StoreTwice(clients: Clients, key: nat, a: Option<PacketState>, b: Option<PacketState>)
    ensures Store(Store(clients, key, a), key, b) == Store(clients, key, b)
  {
  }

  lemma {:induction false} AddressedConcat(client: nat, a: seq<Frame>, b: seq<Frame>)
    ensures Addressed(client, a + b) == Addressed(client, a) + Addressed(client, b)
  {
    if a == [] {
      assert a + b == b;
    } else {
      assert (a + b)[1..] == a[1..] + b;
      AddressedConcat(client, a[1..], b);
    }
  }

  /** The frame a pass delivers, if any. */
  function Finished(handled: set<PacketType>, r: StepResult): seq<Frame> {
    if r.ret == SUCCESS && r.state.head.kind in handled then [Frame(r.state.head.kind, r.state.ask)] else []
  }

  /** The packet a pass leaves in the map, if any. */
  function Kept(handled: set<PacketType>, r: StepResult): Option<PacketState> {
    if r.ret == FAILED || (r.ret == SUCCESS && r.state.head.kind in handled) then None else Some(r.state)
  }

  lemma RunPass(w: Wire, handled: set<PacketType>, client: Option<PacketState>, unread: Bytes)
    requires w.Valid() && ClientUsable(w, client) && unread != []
    ensures var r := Step(w, Current(client), unread);
            var o := Run(w, handled, client, unread);
            && ClientUsable(w, Kept(handled, r))
            && (if r.used == 0 && Kept(handled, r).Some?
                then o == Hung([]) && Finished(handled, r) == []
                else o == Run(w, handled, Kept(handled, r), unread[r.used..]).After(Finished(handled, r)))
            && (r.used == 0 && Kept(handled, r).None? ==> client.Some?)
  {
    var r := Step(w, Current(client), unread);
    AfterNothing(Run(w, handled, client, unread));
  }

  lemma AfterNothing(o: Outcome)
    ensures o.After([]) == o
  {
    assert [] + o.frames == o.frames;
  }

  lemma AfterTwice(o: Outcome, before: seq<Frame>, frames: seq<Frame>)
    ensures o.After(frames).After(before) == o.After(before + frames)
  {
    assert before + (frames + o.frames) == (before + frames) + o.frames;
  }

  // ---------------------------------------------------------------------------------------
  // Runs over interleaved clients
  // ---------------------------------------------------------------------------------------

  datatype Net = Net(clients: Clients, sent: seq<Delivery>)

  /** None when some message makes the listener hang. */
  function Serve(w: Wire, handled: set<PacketType>, clients: Clients, events: seq<Event>): Option<Net>
    requires w.Valid() && AllUsable(w, clients)
    decreases |events|
  {
    if events == [] then Some(Net(clients, [])) else
    var e := events[0];
    var o := Run(w, handled, Lookup(clients, Key(e.client)), e.msg);
    if o.Hung? then None else
    match Serve(w, handled, Store(clients, Key(e.client), o.client), events[1..])
    case None => None
    case Some(net) => Some(Net(net.clients, Addressed(e.client, o.frames) + net.sent))
  }

  function Resumed(sent: seq<Delivery>, net: Option<Net>): Option<Net> {
    if net.None? then None else Some(Net(net.value.clients, sent + net.value.sent))
  }

  lemma ServeFirst(w: Wire, handled: set<PacketType>, clients: Clients, e: Event, rest: seq<Event>, sent: seq<Delivery>)
    requires w.Valid() && AllUsable(w, clients)
    ensures var o := Run(w, handled, Lookup(clients, Key(e.client)), e.msg);
            if o.Hung? then Serve(w, handled, clients, [e] + rest).None?
            else Resumed(sent, Serve(w, handled, clients, [e] + rest))
                 == Resumed(sent + Addressed(e.client, o.frames),
                            Serve(w, handled, Store(clients, Key(e.client), o.client), rest))
  {
    assert ([e] + rest)[1..] == rest;
    var o := Run(w, handled, Lookup(clients, Key(e.client)), e.msg);
    if o.Done? && Serve(w, handled, Store(clients, Key(e.client), o.client), rest).Some? {
      var later := Serve(w, handled, Store(clients, Key(e.client), o.client), rest).value.sent;
      assert sent + (Addressed(e.client, o.frames) + later) == (sent + Addressed(e.client, o.frames)) + later;
    }
  }

  function ChunksOf(events: seq<Event>, client: nat): seq<Bytes> {
    if events == [] then []
    else (if events[0].client == client then [events[0].msg] else []) + ChunksOf(events[1..], client)
  }

  function FramesFor(sent: seq<Delivery>, client: nat): seq<Frame> {
    if sent == [] then []
    else (if sent[0].client == client then [sent[0].frame] else []) + FramesFor(sent[1..], client)
  }

  lemma FramesForCons(d: Delivery, sent: seq<Delivery>, client: nat)
    ensures FramesFor([d] + sent, client) == (if d.client == client then [d.frame] else []) + FramesFor(sent, client)
  {
    assert ([d] + sent)[1..] == sent;
  }

  lemma {:induction false} FramesForConcat(a: seq<Delivery>, b: seq<Delivery>, client: nat)
    ensures FramesFor(a + b, client) == FramesFor(a, client) + FramesFor(b, client)
  {
    if a == [] {
      assert a + b == b;
    } else {
      hide FramesFor;
      var d, rest := a[0], a[1..];
      assert a == [d] + rest && a + b == [d] + (rest + b);
      FramesForConcat(rest, b, client);
      FramesForCons(d, rest, client);
      FramesForCons(d, rest + b, client);
      var first := if d.client == client then [d.frame] else [];
      assert (first + FramesFor(rest, client)) + FramesFor(b, client)
          == first + (FramesFor(rest, client) + FramesFor(b, client));
    }
  }

  lemma {:induction false} FramesForAddressed(to: nat, frames: seq<Frame>, client: nat)
    ensures FramesFor(Addressed(to, frames), client) == if to == client then frames else []
  {
    if frames != [] {
      assert Addressed(to, frames)[1..] == Addressed(to, frames[1..]);
      FramesForAddressed(to, frames[1..], client);
    }
  }

  /** No other client in the run is mapped to the packet of `client`. */
  predicate Alone(events: seq<Event>, client: nat) {
    forall i | 0 <= i < |events| :: Key(events[i].client) == Key(client) ==> events[i].client == client
  }

  lemma AloneInRest(events: seq<Event>, client: nat)
    requires events != [] && Alone(events, client)
    ensures Alone(events[1..], client)
    ensures Key(events[0].client) == Key(client) ==> events[0].client == client
  {
    forall i | 0 <= i < |events[1..]| && Key(events[1..][i].client) == Key(client)
      ensures events[1..][i].client == client
    {
      assert events[1..][i] == events[i + 1];
    }
  }

  /** How one event shows in what a client sent and in what was delivered for it. */
  lemma OneEvent(e: Event, rest: seq<Event>, frames: seq<Frame>, sent: seq<Delivery>, client: nat)
    ensures ChunksOf([e] + rest, client) == (if e.client == client then [e.msg] else []) + ChunksOf(rest, client)
    ensures FramesFor(Addressed(e.client, frames) + sent, client)
         == (if e.client == client then frames else []) + FramesFor(sent, client)
  {
    assert ([e] + rest)[1..] == rest;
    FramesForConcat(Addressed(e.client, frames), sent, client);
    FramesForAddressed(e.client, frames, client);
  }

  lemma FeedFirst(w: Wire, handled: set<PacketType>, client: Option<PacketState>, msg: Bytes, chunks: seq<Bytes>)
    requires w.Valid() && ClientUsable(w, client) && Run(w, handled, client, msg).Done?
    ensures var o := Run(w, handled, client, msg);
            Feed(w, handled, client, [msg] + chunks) == Feed(w, handled, o.client, chunks).After(o.frames)
  {
    assert ([msg] + chunks)[1..] == chunks;
  }

  /** Whatever the other clients send in between, a client is served as if its messages were the
      only ones. */
  lemma {:induction false} ClientsAreIsolated(w: Wire, handled: set<PacketType>, clients: Clients,
                                              events: seq<Event>, client: nat)
    requires w.Valid() && AllUsable(w, clients) && Alone(events, client)
    requires Serve(w, handled, clients, events).Some?
    ensures var net := Serve(w, handled, clients, events).value;
            Feed(w, handled, Lookup(clients, Key(client)), ChunksOf(events, client))
              == Done(Lookup(net.clients, Key(client)), FramesFor(net.sent, client))
    decreases |events|
  {
    if events != [] {
      var e, rest := events[0], events[1..];
      var o := Run(w, handled, Lookup(clients, Key(e.client)), e.msg);
      var clients' := Store(clients, Key(e.client), o.client);
      var net := Serve(w, handled, clients', rest).value;
      AloneInRest(events, client);
      ClientsAreIsolated(w, handled, clients', rest, client);
      assert [e] + rest == events;
      OneEvent(e, rest, o.frames, net.sent, client);
      var before, after := Lookup(clients, Key(client)), Lookup(clients', Key(client));
      var chunks, frames := ChunksOf(rest, client), FramesFor(net.sent, client);
      assert Feed(w, handled, after, chunks) == Done(Lookup(net.clients, Key(client)), frames);
      assert Serve(w, handled, clients, events).value == Net(net.clients, Addressed(e.client, o.frames) + net.sent);
      if e.client == client {
        assert after == o.client && ChunksOf(events, client) == [e.msg] + chunks;
        FeedFirst(w, handled, before, e.msg, chunks);
      } else {
        assert after == before && [] + chunks == chunks && [] + frames == frames;
      }
    }
  }

  predicate DistinctKeys(events: seq<Event>) {
    forall i | 0 <= i < |events| :: Alone(events, events[i].client)
  }

  /** The listener hangs in a run exactly when one of the clients would hang it on its own. */
  lemma {:induction false} HangsAreSomeClientsOwn(w: Wire, handled: set<PacketType>, clients: Clients,
                                                  events: seq<Event>)
    requires w.Valid() && AllUsable(w, clients) && DistinctKeys(events)
    ensures Serve(w, handled, clients, events).None? <==>
            exists c: nat :: Feed(w, handled, Lookup(clients, Key(c)), ChunksOf(events, c)).Hung?
    decreases |events|
  {
    if Serve(w, handled, clients, events).None? {
      var c := HangingClient(w, handled, clients, events);
    } else {
      forall c: nat ensures !Feed(w, handled, Lookup(clients, Key(c)), ChunksOf(events, c)).Hung? {
        if ChunksOf(events, c) != [] {
          ChunksComeFromEvents(events, c);
          ClientsAreIsolated(w, handled, clients, events, c);
        }
      }
    }
  }

  lemma {:induction false} ChunksComeFromEvents(events: seq<Event>, c: nat)
    requires ChunksOf(events, c) != []
    ensures exists i :: 0 <= i < |events| && events[i].client == c
  {
    if events[0].client != c {
      ChunksComeFromEvents(events[1..], c);
      var i :| 0 <= i < |events[1..]| && events[1..][i].client == c;
      assert events[i + 1].client == c;
    }
  }

  lemma {:induction false} HangingClient(w: Wire, handled: set<PacketType>, clients: Clients, events: seq<Event>)
    returns (c: nat)
    requires w.Valid() && AllUsable(w, clients) && DistinctKeys(events)
    requires Serve(w, handled, clients, events).None?
    ensures Feed(w, handled, Lookup(clients, Key(c)), ChunksOf(events, c)).Hung?
    decreases |events|
  {
    var e, rest := events[0], events[1..];
    assert [e] + rest == events;
    var o := Run(w, handled, Lookup(clients, Key(e.client)), e.msg);
    if o.Hung? {
      c := e.client;
      assert ChunksOf(events, c) == [e.msg] + ChunksOf(rest, c);
    } else {
      DistinctInRest(events);
      c := HangingClient(w, handled, Store(clients, Key(e.client), o.client), rest);
      HangsAfterFirst(w, handled, clients, e, rest, c);
    }
  }

  lemma DistinctInRest(events: seq<Event>)
    requires events != [] && DistinctKeys(events)
    ensures DistinctKeys(events[1..])
  {
    forall i, j | 0 <= i < |events[1..]| && 0 <= j < |events[1..]|
                  && Key(events[1..][j].client) == Key(events[1..][i].client)
      ensures events[1..][j].client == events[1..][i].client
    {
      assert Alone(events, events[i + 1].client) && events[1..][j] == events[j + 1];
    }
  }

  lemma HangsAfterFirst(w: Wire, handled: set<PacketType>, clients: Clients, e: Event, rest: seq<Event>, c: nat)
    requires w.Valid() && AllUsable(w, clients) && DistinctKeys([e] + rest)
    requires Run(w, handled, Lookup(clients, Key(e.client)), e.msg).Done?
    requires var o := Run(w, handled, Lookup(clients, Key(e.client)), e.msg);
             Feed(w, handled, Lookup(Store(clients, Key(e.client), o.client), Key(c)), ChunksOf(rest, c)).Hung?
    ensures Feed(w, handled, Lookup(clients, Key(c)), ChunksOf([e] + rest, c)).Hung?
  {
    hide Run, Step, Key, Wire.Valid, Wire.Usable, DistinctKeys;
    var all, client := [e] + rest, Lookup(clients, Key(c));
    assert all[0] == e && all[1..] == rest;
    if c == e.client {
      assert ChunksOf(all, c) == [e.msg] + ChunksOf(rest, c);
      FeedFirst(w, handled, client, e.msg, ChunksOf(rest, c));
    } else {
      assert ChunksOf(all, c) == ChunksOf(rest, c);
      KeyOfOther(e, rest, c);
    }
  }

  lemma KeyOfOther(e: Event, rest: seq<Event>, c: nat)
    requires DistinctKeys([e] + rest) && c != e.client && ChunksOf(rest, c) != []
    ensures Key(c) != Key(e.client)
  {
    ChunksComeFromEvents(rest, c);
    hide Key, ChunksOf;
    var all := [e] + rest;
    var i :| 0 <= i < |rest| && rest[i].client == c;
    assert Alone(all, all[0].client) && all[i + 1].client == c;
  }

  /** The run as the packet map sees it. */
  function Keyed(events: seq<Event>): (r: seq<Event>)
    ensures |r| == |events| && forall i | 0 <= i < |r| :: r[i] == Event(Key(events[i].client), events[i].msg)
  {
    if events == [] then [] else [Event(Key(events[0].client), events[0].msg)] + Keyed(events[1..])
  }

  lemma KeyOfKey(client: nat)
    ensures Key(Key(client)) == Key(client)
  {
  }

  lemma {:induction false} KeyedHangs(w: Wire, handled: set<PacketType>, clients: Clients, events: seq<Event>)
    requires w.Valid() && AllUsable(w, clients)
    ensures Serve(w, handled, clients, events).None? <==> Serve(w, handled, clients, Keyed(events)).None?
    decreases |events|
  {
    if events != [] {
      hide Run, Key;
      var e := events[0];
      KeyOfKey(e.client);
      assert Keyed(events)[1..] == Keyed(events[1..]);
      var o := Run(w, handled, Lookup(clients, Key(e.client)), e.msg);
      if o.Done? { KeyedHangs(w, handled, Store(clients, Key(e.client), o.client), events[1..]); }
    }
  }

  /** For any clients at all: the listener hangs exactly when the messages of all clients with some key would hang one
      packet. */
  lemma HangsAreSomeKeysOwn(w: Wire, handled: set<PacketType>, clients: Clients, events: seq<Event>)
    requires w.Valid() && AllUsable(w, clients)
    ensures Serve(w, handled, clients, events).None? <==>
            exists k: nat :: Feed(w, handled, Lookup(clients, Key(k)), ChunksOf(Keyed(events), k)).Hung?
  {
    hide Serve, Feed, Key, Keyed;
    KeyedHangs(w, handled, clients, events);
    forall i, j | 0 <= i < |events| && 0 <= j < |events|
                  && Key(Keyed(events)[j].client) == Key(Keyed(events)[i].client)
      ensures Keyed(events)[j].client == Keyed(events)[i].client
    {
      KeyOfKey(events[i].client);
      KeyOfKey(events[j].client);
    }
    HangsAreSomeClientsOwn(w, handled, clients, Keyed(events));
  }

  // ---------------------------------------------------------------------------------------
  // Which clients are isolated from each other
  // ---------------------------------------------------------------------------------------

  predicate Between(events: seq<Event>, a: nat, b: nat) {
    forall i | 0 <= i < |events| :: events[i].client == a || events[i].client == b
  }

  lemma NoClients(w: Wire)
    ensures AllUsable(w, map[])
  {
  }

  /** In a run from the start, client c gets and keeps what its own stream gives. */
  predicate ServedAlone(w: Wire, handled: set<PacketType>, events: seq<Event>, c: nat)
    requires w.Valid()
  {
    NoClients(w);
    match Serve(w, handled, map[], events)
    case None => true
    case Some(net) =>
      Feed(w, handled, None, ChunksOf(events, c)) == Done(Lookup(net.clients, Key(c)), FramesFor(net.sent, c))
  }

  /** No run of the two clients that does not hang shows either of them that the other exists. */
  ghost predicate Isolated(w: Wire, handled: set<PacketType>, a: nat, b: nat)
    requires w.Valid()
  {
    forall events | Between(events, a, b) ::
      ServedAlone(w, handled, events, a) && ServedAlone(w, handled, events, b)
  }

  /** Every frame takes its head and its payload out of the bytes. */
  lemma {:induction false} FramesFitBytes(w: Wire, handled: set<PacketType>, s: Bytes, f: Frame)
    requires w.Valid() && f in Scan(w, handled, s).frames
    ensures w.headSize + |f.payload| <= |s|
    decreases |s|
  {
    hide Wire.PayloadOk, Wire.HeadOf, Wire.MaxLength;
    var head := w.HeadOf(s[..w.headSize]);
    var payload, rest := s[w.headSize..w.headSize + head.length], s[w.headSize + head.length..];
    if f != Frame(head.kind, payload) { FramesFitBytes(w, handled, rest, f); }
  }

  /** One packet, its first byte sent by one client and the rest by the other. */
  function Mixed(a: nat, b: nat, packet: Bytes): seq<Event>
    requires packet != []
  {
    [Event(a, packet[..1]), Event(b, packet[1..])]
  }

  /** Clients whose ids agree in their low 32 bits share one packet: whatever the packet type, the rest of a packet
      sent by one of them completes the first byte sent by the other. */
  lemma CollidingIdsMixStreams(w: Wire, handled: set<PacketType>, a: nat, b: nat, packet: Bytes, f: Frame)
    requires w.Valid() && 2 <= w.headSize && a != b && Key(a) == Key(b)
    requires Sends(w, packet, f) && f.kind in handled
    ensures packet != [] && Between(Mixed(a, b, packet), a, b) && AllUsable(w, map[])
    ensures Serve(w, handled, map[], Mixed(a, b, packet)) == Some(Net(map[], [Delivery(b, f)]))
    ensures f !in Feed(w, handled, None, ChunksOf(Mixed(a, b, packet), b)).frames
    ensures !ServedAlone(w, handled, Mixed(a, b, packet), a) && !ServedAlone(w, handled, Mixed(a, b, packet), b)
  {
    hide Wire.PayloadOk, Wire.HeadOf, Wire.MaxLength, Run, Scan, Serve, Feed, Step;
    NoClients(w);
    var first, rest := packet[..1], packet[1..];
    assert first + rest == packet;
    HalfHead(w, handled, first);
    OtherHalf(w, handled, first, rest, f);
    ServeMixed(w, handled, a, b, packet, f);
    ChunksOfMixed(a, b, packet);
    FeedOne(w, handled, None, first);
    FeedOne(w, handled, None, rest);
    NothingPending(w, handled);
    RunIsScan(w, handled, [], rest);
    assert [] + rest == rest;
    if f in Scan(w, handled, rest).frames { FramesFitBytes(w, handled, rest, f); }
    assert [Delivery(b, f)][1..] == [];
    assert FramesFor([Delivery(b, f)], b) == [f] && FramesFor([Delivery(b, f)], a) == [];
  }

  lemma HalfHead(w: Wire, handled: set<PacketType>, a: Bytes)
    requires w.Valid() && 0 < |a| < w.headSize
    ensures Run(w, handled, None, a) == Done(Some(PacketState(Head(INVALID, 0), a)), [])
    ensures Pending(w, handled, a) && StateOf(w, a) == Some(PacketState(Head(INVALID, 0), a))
  {
    assert [] + a == a && a[|a|..] == [];
  }

  lemma OtherHalf(w: Wire, handled: set<PacketType>, first: Bytes, rest: Bytes, f: Frame)
    requires w.Valid() && 0 < |first| < w.headSize && Sends(w, first + rest, f) && f.kind in handled
    ensures Run(w, handled, Some(PacketState(Head(INVALID, 0), first)), rest) == Done(None, [f])
  {
    hide Wire.PayloadOk, Wire.HeadOf, Wire.MaxLength, Run, Scan, Sends;
    HalfHead(w, handled, first);
    var packet := first + rest;
    ScanOfPackets(w, handled, [packet], [f]);
    FeedOne(w, handled, None, packet);
    RunIsScan(w, handled, first, rest);
  }

  lemma ServeMixed(w: Wire, handled: set<PacketType>, a: nat, b: nat, packet: Bytes, f: Frame)
    requires w.Valid() && packet != [] && Key(a) == Key(b)
    requires var p := PacketState(Head(INVALID, 0), packet[..1]);
             && Run(w, handled, None, packet[..1]) == Done(Some(p), [])
             && Run(w, handled, Some(p), packet[1..]) == Done(None, [f])
    ensures AllUsable(w, map[])
    ensures Serve(w, handled, map[], Mixed(a, b, packet)) == Some(Net(map[], [Delivery(b, f)]))
  {
    hide Run;
    NoClients(w);
    var p, none: Clients := PacketState(Head(INVALID, 0), packet[..1]), map[];
    var clients: Clients := map[Key(a) := p];
    var e, g := Event(a, packet[..1]), Event(b, packet[1..]);
    ServeOne(w, handled, clients, g);
    AddressedOne(b, f);
    AddressedOne(a, f);
    assert Store(none, Key(a), Some(p)) == clients && Store(clients, Key(b), None) == none;
    assert [e, g][1..] == [g];
    assert Serve(w, handled, clients, [g]) == Some(Net(none, [Delivery(b, f)]));
    assert Addressed(a, []) + [Delivery(b, f)] == [Delivery(b, f)];
  }

  lemma ChunksOfMixed(a: nat, b: nat, packet: Bytes)
    requires packet != [] && a != b
    ensures ChunksOf(Mixed(a, b, packet), a) == [packet[..1]]
    ensures ChunksOf(Mixed(a, b, packet), b) == [packet[1..]]
  {
    var e, g := Event(a, packet[..1]), Event(b, packet[1..]);
    var none: seq<Event> := [];
    assert [e, g][1..] == [g] && [g][1..] == none;
    assert ChunksOf([g], a) == [] && ChunksOf([g], b) == [packet[1..]];
  }

  /** Two clients are isolated from each other in all runs if and only if their ids differ in the low 32 bits, given
      that some packet can be delivered at all. */
  lemma IsolatedExactly(w: Wire, handled: set<PacketType>, a: nat, b: nat, packet: Bytes, f: Frame)
    requires w.Valid() && 2 <= w.headSize && a != b
    requires Sends(w, packet, f) && f.kind in handled
    ensures Isolated(w, handled, a, b) <==> a % 0x1_0000_0000 != b % 0x1_0000_0000
  {
    KeysAre(a, b);
    hide Key, ServedAlone, Sends;
    if Key(a) != Key(b) {
      forall events | Between(events, a, b)
        ensures ServedAlone(w, handled, events, a) && ServedAlone(w, handled, events, b)
      {
        KeysApart(w, handled, events, a, b, a);
        KeysApart(w, handled, events, a, b, b);
      }
    } else {
      CollidingIdsMixStreams(w, handled, a, b, packet, f);
    }
  }

  lemma KeysAre(a: nat, b: nat)
    ensures Key(a) == a % 0x1_0000_0000 && Key(b) == b % 0x1_0000_0000
  {
  }

  lemma KeysApart(w: Wire, handled: set<PacketType>, events: seq<Event>, a: nat, b: nat, c: nat)
    requires w.Valid() && Between(events, a, b) && Key(a) != Key(b) && (c == a || c == b)
    ensures ServedAlone(w, handled, events, c)
  {
    hide Serve, Feed, Key;
    NoClients(w);
    if Serve(w, handled, map[], events).Some? { ClientsAreIsolated(w, handled, map[], events, c); }
  }

  lemma ServeOne(w: Wire, handled: set<PacketType>, clients: Clients, e: Event)
    requires w.Valid() && AllUsable(w, clients)
    requires Run(w, handled, Lookup(clients, Key(e.client)), e.msg).Done?
    ensures var o := Run(w, handled, Lookup(clients, Key(e.client)), e.msg);
            Serve(w, handled, clients, [e])
              == Some(Net(Store(clients, Key(e.client), o.client), Addressed(e.client, o.frames)))
  {
    var o := Run(w, handled, Lookup(clients, Key(e.client)), e.msg);
    var none: seq<Event> := [];
    assert [e][1..] == none;
    assert Addressed(e.client, o.frames) + [] == Addressed(e.client, o.frames);
  }
}
