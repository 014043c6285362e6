/** The liveness server of server.py: the registry of clients that sent a
    heartbeat (`active_clients`), the handler that answers one heartbeat
    connection, the status probe of one client, and one cycle of the
    reconciliation loop that probes every known client and replaces the
    stored client table with the clients that answered.

    Bytes read from a socket are decoded by a codec passed in as a function;
    what the network does during a probe is an Exchange (see Reconciliation);
    whether the database answers is a boolean. */
module LivenessServer {
  import opened Messages
  import opened OrderedDicts
  import opened ClientStore
  import opened Reconciliation
  import Text

  /** How handle_client ends: the peer sent nothing (the handler raises
      "socket closed"), or it replied with the acknowledgement dictionary
      and the payload that dictionary encodes to. */
  datatype HandlerOutcome =
    | SocketClosed
    | Replied(reply: HeartbeatDict, payload: Payload)

  /** The dictionary handle_client sends back: the decoded dictionary with
      "type" overwritten by "heartbeat" and "msg" by "ACK". */
  function AckReply(d: HeartbeatDecode): (r: HeartbeatDict)
    ensures r.kind == Some(HeartbeatText) && r.msg == Some(AckText)
    ensures r.clientHost == HeartbeatFields(d).clientHost
    ensures r.clientPort == HeartbeatFields(d).clientPort
    ensures r.identifier == HeartbeatFields(d).identifier
  {
    HeartbeatFields(d).(kind := Some(HeartbeatText), msg := Some(AckText))
  }

  /** The registry after a decoded heartbeat: a message whose "type" is the
      text "heartbeat" sets the address of its identifier; anything else
      leaves the registry alone. */
  function AfterHeartbeat(registry: Dict<int, Address>, d: HeartbeatDecode): (r: Dict<int, Address>)
    requires registry.Valid()
    ensures r.Valid()
    ensures TypeOf(d) != HeartbeatText ==> r == registry
    ensures TypeOf(d) == HeartbeatText ==>
      && d.HeartbeatRecord?
      && d.identifier in r.entries && r.entries[d.identifier] == Address(d.clientHost, d.clientPort)
      && (forall id :: id != d.identifier ==> (id in r.entries <==> id in registry.entries))
      && (forall id :: id != d.identifier && id in registry.entries ==> r.entries[id] == registry.entries[id])
      && (d.identifier in registry.entries ==> r.keys == registry.keys)
      && (d.identifier !in registry.entries ==> r.keys == registry.keys + [d.identifier])
  {
    if TypeOf(d) == HeartbeatText then
      registry.Put(d.identifier, Address(d.clientHost, d.clientPort))
    else
      registry
  }

  class Server {
    /** `active_clients`: identifier -> address of the latest heartbeat. */
    var activeClients: Dict<int, Address>
    /** The database manager the server was built with. */
    const db: Store

    ghost predicate Valid()
      reads this
    {
      activeClients.Valid()
    }

    constructor (db: Store)
      ensures Valid()
      ensures activeClients == Empty() && this.db == db
    {
      activeClients := Empty();
      this.db := db;
    }

    /** handle_client: read one message; an empty read closes the handler,
        otherwise the decoded heartbeat may register its sender, and the
        decoded dictionary, turned into an acknowledgement, is written back. */
    method HandleClient(data: seq<bv8>, decode: seq<bv8> -> HeartbeatDecode) returns (outcome: HandlerOutcome)
      requires Valid()
      modifies this
      ensures Valid()
      ensures data == [] ==> outcome == SocketClosed && activeClients == old(activeClients)
      ensures data != [] ==>
        && activeClients == AfterHeartbeat(old(activeClients), decode(data))
        && outcome == Replied(AckReply(decode(data)), EncodeHeartbeat(AckReply(decode(data))))
    {
      if data == [] {
        return SocketClosed;
      }
      var d := decode(data);
      if TypeOf(d) == HeartbeatText {
        activeClients := activeClients.Put(d.identifier, Address(d.clientHost, d.clientPort));
      }
      var reply := HeartbeatFields(d);
      reply := reply.(kind := Some(HeartbeatText));
      reply := reply.(msg := Some(AckText));
      outcome := Replied(reply, EncodeHeartbeat(reply));
    }

    /** send_a_message_to_client: connect, send the status request, read and
        decode the reply, send the acknowledgement, and report whether the
        client answered and the message count it reported. */
    method ProbeClient(host: string, port: int, request: StatusDict, exchange: Exchange)
      returns (reachable: bool, count: int, sent: seq<Payload>)
      ensures ProbeResult(reachable, count) == ProbeOutcome(exchange)
      ensures exchange.ConnectFailed? ==> sent == []
      ensures exchange.LostBeforeReply? ==> sent == [EncodeStatus(request)]
      ensures exchange.Answered? ==> sent == [EncodeStatus(request), EncodeHeartbeat(ProbeAck(host, port, exchange.reply))]
      ensures exchange.Answered? && exchange.reply.StatusRecord? ==>
        sent[1] == HeartbeatPayload(HeartbeatText, AckText, host, exchange.reply.identifier, port)
      ensures exchange.Answered? && exchange.reply.StatusDecodeError? ==> sent[1] == ErrorPayload
    {
      match exchange
      case ConnectFailed =>
        return false, 0, [];
      case LostBeforeReply =>
        return false, 0, [EncodeStatus(request)];
      case Answered(reply, ackWritten) =>
        sent := [EncodeStatus(request), EncodeHeartbeat(ProbeAck(host, port, reply))];
        if !ackWritten {
          return false, 0, sent;
        }
        reachable := true;
        count := if reply.StatusRecord? then reply.messageCount else 0;
    }

    /** The two probing loops of send_status_request_to_clients: every
        registered client in insertion order with message_count 0, then every
        fetched row at its stripped host with its stored status_count; each
        successful probe sets the mapping entry of its identifier, and a
        stored-row probe whose count differs from the stored one is warned
        about. Probe number k meets network(k); the trace records what each
        probe sent, and where, in probe order. */
    method ProbeAll(rows: seq<StoredRow>, network: nat -> Exchange)
      returns (mapping: Dict<int, ClientEntry>, warned: seq<int>, trace: seq<ProbeTrace>)
      requires Valid()
      ensures mapping == CycleSnapshot(activeClients, rows, network)
      ensures warned == CycleWarnings(activeClients, rows, network)
      ensures trace == CycleTrace(activeClients, rows, network)
    {
      mapping, warned, trace := ProbeRegistered(rows, network);
      mapping, warned, trace := ProbeStored(rows, network, mapping, warned, trace);
    }

    /** The first loop: every registered client, in insertion order, is asked
        for its status with message_count 0. */
    method ProbeRegistered(rows: seq<StoredRow>, network: nat -> Exchange)
      returns (mapping: Dict<int, ClientEntry>, warned: seq<int>, trace: seq<ProbeTrace>)
      requires Valid()
      ensures mapping == SnapshotUpTo(activeClients, rows, network, |activeClients.keys|)
      ensures warned == WarnedUpTo(activeClients, rows, network, |activeClients.keys|)
      ensures trace == TraceUpTo(activeClients, rows, network, |activeClients.keys|)
    {
      var keys := activeClients.keys;
      mapping := Empty();
      warned := [];
      trace := [];
      for i := 0 to |keys|
        invariant mapping == SnapshotUpTo(activeClients, rows, network, i)
        invariant warned == WarnedUpTo(activeClients, rows, network, i)
        invariant trace == TraceUpTo(activeClients, rows, network, i)
      {
        var probe;
        mapping, probe := ProbeRegisteredClient(keys[i], activeClients.entries[keys[i]], network(i), mapping);
        trace := trace + [probe];
      }
    }

    /** The second loop: every fetched row is asked for its status at its
        stripped host with its stored status_count; a reply whose count
        differs from the stored one is warned about. */
    method ProbeStored(rows: seq<StoredRow>, network: nat -> Exchange,
                       mapping0: Dict<int, ClientEntry>, warned0: seq<int>, trace0: seq<ProbeTrace>)
      returns (mapping: Dict<int, ClientEntry>, warned: seq<int>, trace: seq<ProbeTrace>)
      requires Valid()
      requires mapping0 == SnapshotUpTo(activeClients, rows, network, |activeClients.keys|)
      requires warned0 == WarnedUpTo(activeClients, rows, network, |activeClients.keys|)
      requires trace0 == TraceUpTo(activeClients, rows, network, |activeClients.keys|)
      ensures mapping == CycleSnapshot(activeClients, rows, network)
      ensures warned == CycleWarnings(activeClients, rows, network)
      ensures trace == CycleTrace(activeClients, rows, network)
    {
      var n := |activeClients.keys|;
      mapping, warned, trace := mapping0, warned0, trace0;
      for k := n to n + |rows|
        invariant mapping == SnapshotUpTo(activeClients, rows, network, k)
        invariant warned == WarnedUpTo(activeClients, rows, network, k)
        invariant trace == TraceUpTo(activeClients, rows, network, k)
      {
        var probe;
        mapping, warned, probe := ProbeStoredRow(rows[k - n], k, network(k), mapping, warned);
        trace := trace + [probe];
        assert CallAt(activeClients, rows, k) == StoreCall(rows[k - n]);
      }
    }

    /** The body of the first loop for one registered client: probe it at its
        registered address with message_count 0 and, when it answers, record it
        under its identifier with the count it reported. */
    method ProbeRegisteredClient(id: int, a: Address, exchange: Exchange, mapping0: Dict<int, ClientEntry>)
      returns (mapping: Dict<int, ClientEntry>, probe: ProbeTrace)
      requires mapping0.Valid()
      ensures mapping == if ProbeOutcome(exchange).reachable
        then mapping0.Put(id, EntryFor(ProbeCall(RegistryPass, id, a.clientHost, a.clientPort, Some(0)), ProbeOutcome(exchange).count))
        else mapping0
      ensures probe == TraceOf(ProbeCall(RegistryPass, id, a.clientHost, a.clientPort, Some(0)), exchange)
    {
      mapping := mapping0;
      var ok, count, sent := ProbeClient(a.clientHost, a.clientPort, StatusDict(Some(StatusText), Some(0), Some(id)), exchange);
      probe := ProbeTrace(a.clientHost, a.clientPort, sent);
      if ok {
        mapping := mapping.Put(id, ClientEntry(id, true, a.clientHost, a.clientPort, count));
      }
    }

    /** The body of the second loop for one fetched row, made as probe number k:
        probe the row's stripped host with its stored status_count and, when it
        answers, record it and warn when the count differs from the stored one. */
    method ProbeStoredRow(row: StoredRow, k: int, exchange: Exchange, mapping0: Dict<int, ClientEntry>, warned0: seq<int>)
      returns (mapping: Dict<int, ClientEntry>, warned: seq<int>, probe: ProbeTrace)
      requires mapping0.Valid()
      ensures mapping == if ProbeOutcome(exchange).reachable
        then mapping0.Put(row.identifier, EntryFor(StoreCall(row), ProbeOutcome(exchange).count))
        else mapping0
      ensures warned == warned0 + if ProbeOutcome(exchange).reachable && row.statusCount != Some(ProbeOutcome(exchange).count) then [k] else []
      ensures probe == TraceOf(StoreCall(row), exchange)
    {
      mapping, warned := mapping0, warned0;
      var host := Text.Strip(row.clientHost);
      var id := row.identifier;
      var ok, count, sent := ProbeClient(host, row.clientPort, StatusDict(Some(StatusText), row.statusCount, Some(id)), exchange);
      probe := ProbeTrace(host, row.clientPort, sent);
      if ok {
        mapping := mapping.Put(id, ClientEntry(id, true, host, row.clientPort, count));
        if Some(count) != row.statusCount {
          warned := warned + [k];
        }
      }
    }

    /** One iteration of send_status_request_to_clients: fetch the connected
        rows, probe, replace the stored table with the mapping, and pick the
        pause before the next iteration. */
    method ReconcileCycle(fetchOk: bool, writeOk: bool, network: nat -> Exchange)
      returns (rows: seq<StoredRow>, mapping: Dict<int, ClientEntry>, warned: seq<int>, trace: seq<ProbeTrace>, pause: int)
      requires Valid()
      modifies db
      ensures rows == if fetchOk then ConnectedRows(old(db.table)) else []
      ensures mapping == CycleSnapshot(activeClients, rows, network)
      ensures warned == CycleWarnings(activeClients, rows, network)
      ensures trace == CycleTrace(activeClients, rows, network)
      ensures db.table == if writeOk then Written(mapping) else old(db.table)
      ensures SleepLower <= pause <= SleepUpper
    {
      rows := db.FetchConnected(fetchOk);
      mapping, warned, trace := ProbeAll(rows, network);
      db.ReplaceConnected(mapping, writeOk);
      pause :| SleepLower <= pause <= SleepUpper;
    }
  }

  /** Under the protobuf codec a heartbeat never registers its sender: the
      decoded "type" is the enum member, which is never the text "heartbeat". */
  lemma ProtobufHeartbeatNeverRegisters(registry: Dict<int, Address>, p: Payload)
    requires registry.Valid()
    ensures AfterHeartbeat(registry, DecodeHeartbeat(p)) == registry
  {
  }

  /** Receiving the same heartbeat twice leaves the registry as receiving it once. */
  lemma HeartbeatIdempotent(registry: Dict<int, Address>, d: HeartbeatDecode)
    requires registry.Valid()
    ensures AfterHeartbeat(AfterHeartbeat(registry, d), d) == AfterHeartbeat(registry, d)
  {
  }

  /** The acknowledgement of a decoded heartbeat echoes the sender's address
      and identifier; the acknowledgement of an undecodable message cannot be
      encoded and goes out as an error payload. */
  lemma AckReplyPayload(d: HeartbeatDecode)
    ensures d.HeartbeatRecord? ==>
      EncodeHeartbeat(AckReply(d)) == HeartbeatPayload(HeartbeatText, AckText, d.clientHost, d.identifier, d.clientPort)
    ensures d.HeartbeatDecodeError? <==> EncodeHeartbeat(AckReply(d)).ErrorPayload?
  {
  }

  /** Every warning is about a stored-row probe that succeeded with a count
      other than the row's stored status_count, and every such probe is warned about. */
  lemma WarningsAreCountMismatches(registry: Dict<int, Address>, rows: seq<StoredRow>, network: nat -> Exchange, k: int)
    requires registry.Valid()
    ensures k in CycleWarnings(registry, rows, network) <==>
      && |registry.keys| <= k < |registry.keys| + |rows|
      && ProbeOutcome(network(k)).reachable
      && rows[k - |registry.keys|].statusCount != Some(ProbeOutcome(network(k)).count)
  {
    WarnedMembers(registry, rows, network, ProbeCount(registry, rows), k);
  }
}
