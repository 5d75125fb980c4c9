/** The routing table of WebRTC receivers and the per-connection track maps it mirrors (media_pipeline.go). */
module Routing {
  import Common

  const QUEUE_CAPACITY := 100

  /** The name of a receiver or of a track. */
  datatype Id = Id(text: string)

  datatype Packet = Packet(trackId: Id, payload: seq<int>)

  type Table = map<Id, seq<Id>>

  predicate NoDuplicates(s: seq<Id>) {
    forall i, j :: 0 <= i < j < |s| ==> s[i] != s[j]
  }

  /** The receivers other than `id`, in order. */
  function Others(receivers: seq<Id>, id: Id): seq<Id> {
    if receivers == [] then []
    else (if receivers[0] == id then [] else [receivers[0]]) + Others(receivers[1..], id)
  }

  /** The table with `id` appended to a track's receivers. */
  function Subscribed(table: Table, track: Id, id: Id): Table {
    table[track := (if track in table then table[track] else []) + [id]]
  }

  /** The table without `id`; a track nobody is left on disappears. */
  function Unsubscribed(table: Table, id: Id): Table {
    map track | track in table && Others(table[track], id) != [] :: Others(table[track], id)
  }

  predicate Listed(table: Table, track: Id, id: Id) {
    track in table && id in table[track]
  }

  predicate Tidy(table: Table) {
    forall track :: track in table ==> table[track] != [] && NoDuplicates(table[track])
  }

  lemma {:induction false} OthersAppend(a: seq<Id>, b: seq<Id>, id: Id)
    ensures Others(a + b, id) == Others(a, id) + Others(b, id)
  {
    if a == [] {
      assert a + b == b;
    } else {
      assert (a + b)[1..] == a[1..] + b;
      OthersAppend(a[1..], b, id);
    }
  }

  lemma {:induction false} OthersAll(receivers: seq<Id>, id: Id)
    requires id !in receivers
    ensures Others(receivers, id) == receivers
  {
    if receivers != [] {
      OthersAll(receivers[1..], id);
    }
  }

  lemma {:induction false} OthersMembers(receivers: seq<Id>, id: Id, r: Id)
    ensures r in Others(receivers, id) <==> r in receivers && r != id
  {
    if receivers != [] {
      OthersMembers(receivers[1..], id, r);
    }
  }

  lemma {:induction false} OthersDistinct(receivers: seq<Id>, id: Id)
    requires NoDuplicates(receivers)
    ensures NoDuplicates(Others(receivers, id))
  {
    if receivers != [] {
      OthersDistinct(receivers[1..], id);
      OthersMembers(receivers[1..], id, receivers[0]);
      assert receivers[0] !in receivers[1..];
    }
  }

  /** Removing a receiver undoes its subscriptions, whatever else is in the table. */
  lemma UnsubscribeUndoes(table: Table, track: Id, id: Id)
    requires Tidy(table) && forall t :: !Listed(table, t, id)
    ensures Unsubscribed(Subscribed(table, track, id), id) == table
  {
    var more := Subscribed(table, track, id);
    var less := Unsubscribed(more, id);
    forall t
      ensures t in less <==> t in table
      ensures t in less ==> less[t] == table[t]
    {
      if t in more {
        LeftOver(table, track, id, t);
      }
    }
  }

  lemma LeftOver(table: Table, track: Id, id: Id, t: Id)
    requires Tidy(table) && !Listed(table, t, id) && t in Subscribed(table, track, id)
    ensures Others(Subscribed(table, track, id)[t], id) == if t in table then table[t] else []
  {
    var before := if t in table then table[t] else [];
    OthersAll(before, id);
    if t == track {
      OthersAppend(before, [id], id);
      assert [id][1..] == [];
    }
  }

  lemma UnsubscribedLists(table: Table, id: Id, track: Id, r: Id)
    requires Tidy(table)
    ensures Listed(Unsubscribed(table, id), track, r) <==> Listed(table, track, r) && r != id
  {
    if track in table {
      OthersMembers(table[track], id, r);
    }
  }

  lemma UnsubscribedTidy(table: Table, id: Id)
    requires Tidy(table)
    ensures Tidy(Unsubscribed(table, id))
  {
    forall t | t in Unsubscribed(table, id)
      ensures NoDuplicates(Unsubscribed(table, id)[t])
    {
      OthersDistinct(table[t], id);
    }
  }

  /** A receiver is listed for a track exactly when it is connected and holds the track. */
  ghost predicate Mirrors(table: Table, tracks: map<Id, set<Id>>) {
    forall track, id {:trigger Listed(table, track, id)} :: Listed(table, track, id) <==> id in tracks && track in tracks[id]
  }

  lemma MirrorsNew(table: Table, tracks: map<Id, set<Id>>, id: Id)
    requires Mirrors(table, tracks) && id !in tracks
    ensures Mirrors(table, tracks[id := {}])
  {
  }

  lemma MirrorsSubscribed(table: Table, tracks: map<Id, set<Id>>, track: Id, id: Id)
    requires Tidy(table) && Mirrors(table, tracks) && id in tracks && track !in tracks[id]
    ensures Tidy(Subscribed(table, track, id))
    ensures Mirrors(Subscribed(table, track, id), tracks[id := tracks[id] + {track}])
  {
    var more := Subscribed(table, track, id);
    assert !Listed(table, track, id);
    forall t, r
      ensures Listed(more, t, r) <==> r in tracks && (t in tracks[r] || (t == track && r == id))
    {
      assert Listed(more, t, r) <==> Listed(table, t, r) || (t == track && r == id);
    }
  }

  lemma MirrorsUnsubscribed(table: Table, tracks: map<Id, set<Id>>, id: Id)
    requires Tidy(table) && Mirrors(table, tracks)
    ensures Tidy(Unsubscribed(table, id)) && Mirrors(Unsubscribed(table, id), tracks - {id})
  {
    forall t, r
      ensures Listed(Unsubscribed(table, id), t, r) <==> r in tracks - {id} && t in tracks[r]
    {
      UnsubscribedLists(table, id, t, r);
      assert Listed(table, t, r) <==> r in tracks && t in tracks[r];
    }
    UnsubscribedTidy(table, id);
  }

  /** One non-blocking send. */
  function Offered(queue: seq<Packet>, packet: Packet, offered: bool): seq<Packet> {
    if offered && |queue| < QUEUE_CAPACITY then queue + [packet] else queue
  }

  /** A channel takes 100 packets; what is offered to a full one is dropped. */
  lemma OfferedIff(queue: seq<Packet>, packet: Packet, offered: bool)
    ensures Offered(queue, packet, offered) == queue + [packet] <==> offered && |queue| < 100
    ensures Offered(queue, packet, offered) == queue + [packet] || Offered(queue, packet, offered) == queue
  {
    assert |queue + [packet]| != |queue|;
  }

  /** How many of the first `n` receivers have no room. */
  function Crowded(receivers: seq<Id>, n: nat, queues: map<Id, seq<Packet>>): nat
    requires n <= |receivers|
  {
    if n == 0 then 0
    else
      Crowded(receivers, n - 1, queues)
      + if receivers[n - 1] in queues && |queues[receivers[n - 1]]| >= QUEUE_CAPACITY then 1 else 0
  }

  function CrowdedOn(receivers: seq<Id>, queues: map<Id, seq<Packet>>): nat {
    Crowded(receivers, |receivers|, queues)
  }

  function FullOnes(receivers: seq<Id>, queues: map<Id, seq<Packet>>): set<Id> {
    set a | a in receivers && a in queues && |queues[a]| >= 100
  }

  /** It is the number of the receivers whose channels hold 100 packets. */
  lemma {:induction false} CrowdedCounts(receivers: seq<Id>, n: nat, queues: map<Id, seq<Packet>>)
    requires NoDuplicates(receivers) && n <= |receivers|
    ensures Crowded(receivers, n, queues) == |FullOnes(receivers[..n], queues)|
  {
    if n > 0 {
      var a := receivers[n - 1];
      assert receivers[..n] == receivers[..n - 1] + [a];
      assert a !in receivers[..n - 1];
      CrowdedCounts(receivers, n - 1, queues);
      var before := FullOnes(receivers[..n - 1], queues);
      assert FullOnes(receivers[..n], queues) == before + if a in queues && |queues[a]| >= 100 then {a} else {};
    }
  }

  function First(receivers: seq<Id>, n: nat): set<Id>
    requires n <= |receivers|
  {
    if n == 0 then {} else First(receivers, n - 1) + {receivers[n - 1]}
  }

  lemma {:induction false} FirstHolds(receivers: seq<Id>, n: nat, k: nat)
    requires NoDuplicates(receivers) && n <= |receivers| && k < |receivers|
    ensures receivers[k] in First(receivers, n) <==> k < n
  {
    if n > 0 {
      FirstHolds(receivers, n - 1, k);
    }
  }

  lemma {:induction false} FirstAll(receivers: seq<Id>, n: nat)
    requires n <= |receivers|
    ensures forall a :: a in First(receivers, n) <==> a in receivers[..n]
  {
    if n > 0 {
      FirstAll(receivers, n - 1);
      assert receivers[..n] == receivers[..n - 1] + [receivers[n - 1]];
    }
  }

  class Connection {
    const id: Id
    var localTracks: set<Id>
    /** The packet channel. */
    var queue: seq<Packet>

    constructor (id: Id)
      ensures this.id == id && localTracks == {} && queue == []
    {
      this.id := id;
      localTracks, queue := {}, [];
    }
  }

  class Router {
    var connections: map<Id, Connection>
    var routingTable: Table
    var activeConnections: int
    var packetsDropped: nat
    /** The tracks of every connected receiver. */
    ghost var tracks: map<Id, set<Id>>

    /** Every connection is filed under its own name, and counted. */
    ghost predicate Connected()
      reads this`connections, this`tracks, this`activeConnections, connections.Values
    {
      (forall a :: a in connections <==> a in tracks)
      && (forall a :: a in connections ==> connections[a].id == a && connections[a].localTracks == tracks[a]
                                            && |connections[a].queue| <= QUEUE_CAPACITY)
      && activeConnections == |connections|
    }

    ghost predicate Valid()
      reads this, connections.Values
    {
      Connected() && Tidy(routingTable) && Mirrors(routingTable, tracks)
    }

    constructor ()
      ensures Valid() && connections == map[] && routingTable == map[]
    {
      connections, routingTable, activeConnections, packetsDropped := map[], map[], 0, 0;
      tracks := map[];
    }

    /** `established` says whether the peer connection, its data channel and the offer exchange succeeded. */
    method CreateReceiver(id: Id, established: bool) returns (ok: bool, ghost conn: Connection?)
      requires Valid()
      modifies this
      ensures Valid() && ok == (id !in old(connections) && established)
      ensures routingTable == old(routingTable) && packetsDropped == old(packetsDropped)
      ensures !ok ==> connections == old(connections)
      ensures ok ==> conn != null && fresh(conn) && connections == old(connections)[id := conn]
      ensures tracks == if ok then old(tracks)[id := {}] else old(tracks)
    {
      if id in connections || !established {
        return false, null;
      }
      MirrorsNew(routingTable, tracks, id);
      var created := new Connection(id);
      Connect(created);
      return true, created;
    }

    method Connect(conn: Connection)
      requires Connected() && conn.id !in connections && conn.localTracks == {} && conn.queue == []
      modifies `connections, `tracks, `activeConnections
      ensures Connected() && connections == old(connections)[conn.id := conn] && tracks == old(tracks)[conn.id := {}]
    {
      connections := connections[conn.id := conn];
      activeConnections := activeConnections + 1;
      tracks := tracks[conn.id := {}];
    }

    /** `created` says whether the local track could be created and added to the peer connection. */
    method AddTrackToReceiver(id: Id, track: Id, created: bool) returns (ok: bool)
      requires Valid()
      modifies this`routingTable, this`tracks, connections.Values
      ensures Valid() && ok == (id in connections && track !in old(tracks)[id] && created)
      ensures routingTable == if ok then Subscribed(old(routingTable), track, id) else old(routingTable)
      ensures tracks == if ok then old(tracks)[id := old(tracks)[id] + {track}] else old(tracks)
      ensures forall a :: a in connections ==> connections[a].queue == old(connections[a].queue)
    {
      if id !in connections {
        return false;
      }
      var conn := connections[id];
      if track in conn.localTracks || !created {
        return false;
      }
      MirrorsSubscribed(routingTable, tracks, track, id);
      conn.localTracks := conn.localTracks + {track};
      tracks := tracks[id := tracks[id] + {track}];
      var receivers := if track in routingTable then routingTable[track] else [];
      routingTable := routingTable[track := receivers + [id]];
      return true;
    }

    method RemoveReceiver(id: Id) returns (ok: bool)
      requires Valid()
      modifies this
      ensures Valid() && ok == (id in old(connections))
      ensures connections == old(connections) - {id} && tracks == old(tracks) - {id} && packetsDropped == old(packetsDropped)
      ensures routingTable == if ok then Unsubscribed(old(routingTable), id) else old(routingTable)
    {
      if id !in connections {
        assert connections - {id} == connections && tracks - {id} == tracks;
        return false;
      }
      Withdraw(id);
      return true;
    }

    method Withdraw(id: Id)
      requires Valid() && id in connections
      modifies `connections, `tracks, `activeConnections, `routingTable
      ensures Valid() && connections == old(connections) - {id} && tracks == old(tracks) - {id}
      ensures routingTable == Unsubscribed(old(routingTable), id)
    {
      MirrorsUnsubscribed(routingTable, tracks, id);
      RemoveFromTable(id);
      Disconnect(id);
    }

    method Disconnect(id: Id)
      requires Connected() && id in connections
      modifies `connections, `tracks, `activeConnections
      ensures Connected() && connections == old(connections) - {id} && tracks == old(tracks) - {id}
    {
      Common.RemovedSize(connections, id);
      connections := connections - {id};
      activeConnections := activeConnections - 1;
      tracks := tracks - {id};
    }

    method FilterOut(receivers: seq<Id>, id: Id) returns (filtered: seq<Id>)
      ensures filtered == Others(receivers, id)
    {
      filtered := [];
      for i := 0 to |receivers|
        invariant filtered == Others(receivers[..i], id)
      {
        OthersAppend(receivers[..i], [receivers[i]], id);
        assert receivers[..i + 1] == receivers[..i] + [receivers[i]];
        if receivers[i] != id {
          filtered := filtered + [receivers[i]];
        }
      }
      assert receivers[..|receivers|] == receivers;
    }

    /** Visits the tracks in whatever order the map yields them. */
    method RemoveFromTable(id: Id)
      modifies this`routingTable
      ensures routingTable == Unsubscribed(old(routingTable), id)
    {
      var tracks := routingTable.Keys;
      ghost var table := routingTable;
      while tracks != {}
        invariant tracks <= table.Keys
        invariant forall t :: t in tracks ==> t in routingTable && routingTable[t] == table[t]
        invariant forall t :: t in routingTable && t !in tracks ==>
          t in Unsubscribed(table, id) && routingTable[t] == Unsubscribed(table, id)[t]
        invariant forall t :: t in Unsubscribed(table, id) && t !in tracks ==> t in routingTable
      {
        var track :| track in tracks;
        var filtered := FilterOut(routingTable[track], id);
        if filtered == [] {
          routingTable := routingTable - {track};
        } else {
          routingTable := routingTable[track := filtered];
        }
        tracks := tracks - {track};
      }
    }
  
    method Offer(conn: Connection, packet: Packet)
      modifies conn`queue, `packetsDropped
      ensures conn.queue == Offered(old(conn.queue), packet, true)
      ensures packetsDropped == old(packetsDropped) + if |old(conn.queue)| < QUEUE_CAPACITY then 0 else 1
    {
      if |conn.queue| < QUEUE_CAPACITY {
        conn.queue := conn.queue + [packet];
      } else {
        packetsDropped := packetsDropped + 1;
      }
    }

    ghost function Queues(): map<Id, seq<Packet>>
      reads this, connections.Values
    {
      map a | a in connections :: connections[a].queue
    }

    /** Offers the packet exactly once to each receiver that holds its track; a full queue drops it. */
    method RoutePacket(packet: Packet)
      requires Valid()
      modifies `packetsDropped, connections.Values`queue
      ensures Valid()
      ensures forall a :: a in connections ==>
        connections[a].queue == Offered(old(connections[a].queue), packet, packet.trackId in tracks[a])
      ensures packetsDropped == old(packetsDropped)
        + if packet.trackId in routingTable then CrowdedOn(routingTable[packet.trackId], old(Queues())) else 0
    {
      assert forall a :: Listed(routingTable, packet.trackId, a) <==> a in tracks && packet.trackId in tracks[a];
      if packet.trackId !in routingTable {
        return;
      }
      OfferAll(routingTable[packet.trackId], packet);
    }

    /** The receivers in `done` have been offered the packet, and no others. */
    ghost predicate Served(packet: Packet, done: set<Id>, before: map<Id, seq<Packet>>)
      reads `connections, connections.Values`queue
    {
      forall a :: a in connections ==> a in before && connections[a].queue == Offered(before[a], packet, a in done)
    }

    ghost predicate Filed()
      reads `connections
    {
      forall a :: a in connections ==> connections[a].id == a
    }

    method OfferTo(id: Id, packet: Packet, ghost done: set<Id>, ghost before: map<Id, seq<Packet>>)
      requires Filed() && id in connections && id !in done && Served(packet, done, before)
      modifies `packetsDropped, connections.Values`queue
      ensures Served(packet, done + {id}, before)
      ensures packetsDropped == old(packetsDropped) + if |before[id]| < QUEUE_CAPACITY then 0 else 1
    {
      Offer(connections[id], packet);
    }

    method OfferAll(receivers: seq<Id>, packet: Packet)
      requires Connected() && NoDuplicates(receivers) && forall a :: a in receivers ==> a in connections
      modifies `packetsDropped, connections.Values`queue
      ensures Connected()
      ensures forall a :: a in connections ==>
        connections[a].queue == Offered(old(connections[a].queue), packet, a in receivers)
      ensures packetsDropped == old(packetsDropped) + CrowdedOn(receivers, old(Queues()))
    {
      OfferEach(receivers, packet, Queues());
      FirstAll(receivers, |receivers|);
      assert receivers[..|receivers|] == receivers;
    }

    method OfferEach(receivers: seq<Id>, packet: Packet, ghost before: map<Id, seq<Packet>>)
      requires Filed() && NoDuplicates(receivers) && forall k :: 0 <= k < |receivers| ==> receivers[k] in connections
      requires Served(packet, {}, before)
      modifies `packetsDropped, connections.Values`queue
      ensures Served(packet, First(receivers, |receivers|), before)
      ensures packetsDropped == old(packetsDropped) + CrowdedOn(receivers, before)
    {
      ghost var dropped := packetsDropped;
      var i := 0;
      while i < |receivers|
        invariant i <= |receivers| && Served(packet, First(receivers, i), before)
        invariant packetsDropped == dropped + Crowded(receivers, i, before)
      {
        OfferNext(receivers, i, packet, before);
        i := i + 1;
      }
    }

    method OfferNext(receivers: seq<Id>, i: nat, packet: Packet, ghost before: map<Id, seq<Packet>>)
      requires Filed() && NoDuplicates(receivers) && i < |receivers| && receivers[i] in connections
      requires Served(packet, First(receivers, i), before)
      modifies `packetsDropped, connections.Values`queue
      ensures Served(packet, First(receivers, i + 1), before)
      ensures packetsDropped == old(packetsDropped) + Crowded(receivers, i + 1, before) - Crowded(receivers, i, before)
    {
      FirstHolds(receivers, i, i);
      OfferTo(receivers[i], packet, First(receivers, i), before);
    }
  }
}
