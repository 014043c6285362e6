/** The specification of one reconciliation cycle of
    send_status_request_to_clients (server.py:80-136): which probes it makes,
    in which order and with which seed, and the mapping it builds from their
    results. The Server class in server.dfy computes these step by step. */
module Reconciliation {
  import opened Messages
  import opened OrderedDicts
  import opened ClientStore
  import Text

  /** The address a heartbeat registered: {"client_host": ..., "client_port": ...}. */
  datatype Address = Address(clientHost: string, clientPort: int)

  /** Which loop of the cycle made a probe. */
  datatype Pass = RegistryPass | StorePass

  /** One call of send_a_message_to_client: the identifier and address probed
      and the message_count seed put into the status request. */
  datatype ProbeCall = ProbeCall(pass: Pass, identifier: int, clientHost: string, clientPort: int, seed: Option<int>)

  /** The pair (client_status, count) a probe returns. */
  datatype ProbeResult = ProbeResult(reachable: bool, count: int)

  /** What the network does during one probe: the connection or the status
      exchange fails with a ConnectionError/OSError, or a reply arrives (already
      decoded by decode_status) and the acknowledgement write then succeeds or fails. */
  datatype Exchange =
    | ConnectFailed
    | LostBeforeReply
    | Answered(reply: StatusDecode, ackWritten: bool)

  /** The bounds of random.randint(30, 35), both inclusive. */
  const SleepLower: int := 30
  const SleepUpper: int := 35

  /** The status request of a probe: {"type": "status", "message_count": seed, "identifier": id}. */
  function StatusRequest(c: ProbeCall): StatusDict {
    StatusDict(Some(StatusText), c.seed, Some(c.identifier))
  }

  /** The status request goes out as a status message carrying the probe's
      identifier and seed; when the seed is absent (a NULL status_count) the
      encoder cannot assign it and an error message goes out instead. */
  lemma StatusRequestPayload(c: ProbeCall)
    ensures c.seed.None? ==> EncodeStatus(StatusRequest(c)) == ErrorPayload
    ensures c.seed.Some? ==> EncodeStatus(StatusRequest(c)) == StatusPayload(StatusText, c.identifier, c.seed.value)
  {
  }

  /** The acknowledgement a probe sends after the status reply: it carries the
      probed address and the identifier the reply reported. */
  function ProbeAck(host: string, port: int, reply: StatusDecode): HeartbeatDict {
    HeartbeatDict(Some(HeartbeatText), Some(AckText), Some(host), Some(port), StatusIdentifier(reply))
  }

  /** What one probe puts on the network: the address it connects to and the
      payloads it writes there, in order. */
  datatype ProbeTrace = ProbeTrace(host: string, port: int, sent: seq<Payload>)

  /** The traffic of a probe made with call c when the network behaves as e:
      nothing when the connection fails, the status request when the
      exchange breaks before a reply, and the request followed by the
      acknowledgement once a reply arrives. */
  function TraceOf(c: ProbeCall, e: Exchange): ProbeTrace {
    var request := EncodeStatus(StatusRequest(c));
    match e
    case ConnectFailed => ProbeTrace(c.clientHost, c.clientPort, [])
    case LostBeforeReply => ProbeTrace(c.clientHost, c.clientPort, [request])
    case Answered(reply, _) =>
      ProbeTrace(c.clientHost, c.clientPort, [request, EncodeHeartbeat(ProbeAck(c.clientHost, c.clientPort, reply))])
  }

  /** The result send_a_message_to_client reports for a network behaviour. */
  function ProbeOutcome(e: Exchange): (r: ProbeResult)
    ensures e.ConnectFailed? || e.LostBeforeReply? ==> r == ProbeResult(false, 0)
    ensures e.Answered? && !e.ackWritten ==> r == ProbeResult(false, 0)
    ensures e.Answered? && e.ackWritten && e.reply.StatusRecord? ==> r == ProbeResult(true, e.reply.messageCount)
    ensures e.Answered? && e.ackWritten && e.reply.StatusDecodeError? ==> r == ProbeResult(true, 0)
  {
    match e
    case Answered(reply, true) => ProbeResult(true, MessageCountOrZero(reply))
    case _ => ProbeResult(false, 0)
  }

  /** The probe of one stored row: its host stripped of whitespace, its
      status_count (None when the column is NULL) as the seed. */
  function StoreCall(row: StoredRow): ProbeCall {
    ProbeCall(StorePass, row.identifier, Text.Strip(row.clientHost), row.clientPort, row.statusCount)
  }

  /** The k-th call of a cycle: first each registered client in insertion
      order with seed 0, then each fetched row in order. */
  function CallAt(registry: Dict<int, Address>, rows: seq<StoredRow>, k: int): ProbeCall
    requires registry.Valid() && 0 <= k < ProbeCount(registry, rows)
  {
    var n := |registry.keys|;
    if k < n then
      var a := registry.entries[registry.keys[k]];
      ProbeCall(RegistryPass, registry.keys[k], a.clientHost, a.clientPort, Some(0))
    else
      StoreCall(rows[k - n])
  }

  /** The number of probes a cycle makes: one per registered client, then one
      per fetched row. */
  function ProbeCount(registry: Dict<int, Address>, rows: seq<StoredRow>): nat {
    |registry.keys| + |rows|
  }

  /** The entry a successful probe writes into the mapping. */
  function EntryFor(c: ProbeCall, count: int): ClientEntry {
    ClientEntry(c.identifier, true, c.clientHost, c.clientPort, count)
  }

  /** updated_clients_mapping after the first k probes of a cycle, probe i
      meeting network(i): it starts empty, and each successful probe sets the
      entry of its identifier. */
  function SnapshotUpTo(registry: Dict<int, Address>, rows: seq<StoredRow>, network: nat -> Exchange, k: nat): (m: Dict<int, ClientEntry>)
    requires registry.Valid() && k <= ProbeCount(registry, rows)
    ensures m.Valid()
    ensures forall id :: id in m.entries ==> m.entries[id].identifier == id && m.entries[id].isConnected
  {
    if k == 0 then Empty()
    else
      var m := SnapshotUpTo(registry, rows, network, k - 1);
      var c := CallAt(registry, rows, k - 1);
      var res := ProbeOutcome(network(k - 1));
      if res.reachable then m.Put(c.identifier, EntryFor(c, res.count)) else m
  }

  /** Probe k is a stored-row probe that succeeded with a count other than the
      row's stored status_count (a NULL status_count never matches). */
  predicate WarningAt(registry: Dict<int, Address>, rows: seq<StoredRow>, network: nat -> Exchange, k: nat)
    requires registry.Valid() && k < ProbeCount(registry, rows)
  {
    var c := CallAt(registry, rows, k);
    var res := ProbeOutcome(network(k));
    c.pass == StorePass && res.reachable && c.seed != Some(res.count)
  }

  /** The probe numbers, among the first k, at which the cycle logs the
      status-count warning, in the order the warnings are logged. */
  function WarnedUpTo(registry: Dict<int, Address>, rows: seq<StoredRow>, network: nat -> Exchange, k: nat): (ks: seq<int>)
    requires registry.Valid() && k <= ProbeCount(registry, rows)
    ensures |ks| <= k
  {
    if k == 0 then []
    else WarnedUpTo(registry, rows, network, k - 1) + (if WarningAt(registry, rows, network, k - 1) then [k - 1] else [])
  }

  /** A probe number is warned about exactly when that probe is a warning. */
  lemma {:induction false} WarnedMembers(registry: Dict<int, Address>, rows: seq<StoredRow>, network: nat -> Exchange, k: nat, i: int)
    requires registry.Valid() && k <= ProbeCount(registry, rows)
    ensures i in WarnedUpTo(registry, rows, network, k) <==> 0 <= i < k && WarningAt(registry, rows, network, i)
  {
    if k > 0 {
      WarnedMembers(registry, rows, network, k - 1, i);
      var prev := WarnedUpTo(registry, rows, network, k - 1);
      if WarningAt(registry, rows, network, k - 1) {
        assert WarnedUpTo(registry, rows, network, k) == prev + [k - 1];
      } else {
        assert WarnedUpTo(registry, rows, network, k) == prev;
      }
    }
  }

  /** Each element is smaller than every later one. */
  ghost predicate Increasing(ks: seq<int>) {
    forall a, b :: 0 <= a < b < |ks| ==> ks[a] < ks[b]
  }

  /** Warnings are logged in probe order, each probe at most once. */
  lemma {:induction false} WarnedInOrder(registry: Dict<int, Address>, rows: seq<StoredRow>, network: nat -> Exchange, k: nat)
    requires registry.Valid() && k <= ProbeCount(registry, rows)
    ensures Increasing(WarnedUpTo(registry, rows, network, k))
    ensures forall i :: i in WarnedUpTo(registry, rows, network, k) ==> 0 <= i < k
  {
    if k > 0 {
      WarnedInOrder(registry, rows, network, k - 1);
      var prev := WarnedUpTo(registry, rows, network, k - 1);
      var ks := WarnedUpTo(registry, rows, network, k);
      if WarningAt(registry, rows, network, k - 1) {
        assert ks == prev + [k - 1];
        forall a, b | 0 <= a < b < |ks|
          ensures ks[a] < ks[b]
        {
          if b == |prev| {
            assert ks[a] == prev[a] && prev[a] in prev;
          } else {
            assert ks[a] == prev[a] && ks[b] == prev[b];
          }
        }
      } else {
        assert ks == prev;
      }
    }
  }

  /** The traffic of the first k probes of a cycle, one entry per probe. */
  function TraceUpTo(registry: Dict<int, Address>, rows: seq<StoredRow>, network: nat -> Exchange, k: nat): (ts: seq<ProbeTrace>)
    requires registry.Valid() && k <= ProbeCount(registry, rows)
    ensures |ts| == k
  {
    if k == 0 then []
    else TraceUpTo(registry, rows, network, k - 1) + [TraceOf(CallAt(registry, rows, k - 1), network(k - 1))]
  }

  /** Entry i of the traffic is that of the i-th call: probes go out in call order. */
  lemma {:induction false} TraceUpToProbes(registry: Dict<int, Address>, rows: seq<StoredRow>, network: nat -> Exchange, k: nat, i: nat)
    requires registry.Valid() && i < k <= ProbeCount(registry, rows)
    ensures TraceUpTo(registry, rows, network, k)[i] == TraceOf(CallAt(registry, rows, i), network(i))
  {
    if i < k - 1 {
      TraceUpToProbes(registry, rows, network, k - 1, i);
    }
  }

  /** The traffic of a whole cycle. */
  function CycleTrace(registry: Dict<int, Address>, rows: seq<StoredRow>, network: nat -> Exchange): seq<ProbeTrace>
    requires registry.Valid()
  {
    TraceUpTo(registry, rows, network, ProbeCount(registry, rows))
  }

  /** Probe i of a cycle, for i below the registry size, goes to the i-th
      registered client's address and, once connected, asks it for its
      status with message_count 0 and its own identifier. */
  lemma RegistryProbeRequests(registry: Dict<int, Address>, rows: seq<StoredRow>, network: nat -> Exchange, i: nat)
    requires registry.Valid() && i < |registry.keys|
    ensures var t := CycleTrace(registry, rows, network)[i];
      && t.host == registry.entries[registry.keys[i]].clientHost
      && t.port == registry.entries[registry.keys[i]].clientPort
      && (network(i).ConnectFailed? <==> t.sent == [])
      && (!network(i).ConnectFailed? ==> t.sent[0] == StatusPayload(StatusText, registry.keys[i], 0))
  {
    TraceUpToProbes(registry, rows, network, ProbeCount(registry, rows), i);
  }

  /** Probe n + j of a cycle, n being the registry size, goes to the j-th
      fetched row's stripped host and port and, once connected, asks for its
      status with the stored status_count, or sends an error message when
      that column is NULL. */
  lemma StoredProbeRequests(registry: Dict<int, Address>, rows: seq<StoredRow>, network: nat -> Exchange, j: nat)
    requires registry.Valid() && j < |rows|
    ensures var t := CycleTrace(registry, rows, network)[|registry.keys| + j];
      && t.host == Text.Strip(rows[j].clientHost)
      && t.port == rows[j].clientPort
      && (network(|registry.keys| + j).ConnectFailed? <==> t.sent == [])
      && (!network(|registry.keys| + j).ConnectFailed? && rows[j].statusCount.None? ==> t.sent[0] == ErrorPayload)
      && (!network(|registry.keys| + j).ConnectFailed? && rows[j].statusCount.Some? ==>
            t.sent[0] == StatusPayload(StatusText, rows[j].identifier, rows[j].statusCount.value))
  {
    var n := |registry.keys|;
    TraceUpToProbes(registry, rows, network, ProbeCount(registry, rows), n + j);
    assert CallAt(registry, rows, n + j) == StoreCall(rows[j]);
    StatusRequestPayload(StoreCall(rows[j]));
  }

  /** The mapping a whole cycle builds. */
  function CycleSnapshot(registry: Dict<int, Address>, rows: seq<StoredRow>, network: nat -> Exchange): Dict<int, ClientEntry>
    requires registry.Valid()
  {
    SnapshotUpTo(registry, rows, network, ProbeCount(registry, rows))
  }

  /** The warnings a whole cycle logs. */
  function CycleWarnings(registry: Dict<int, Address>, rows: seq<StoredRow>, network: nat -> Exchange): seq<int>
    requires registry.Valid()
  {
    WarnedUpTo(registry, rows, network, ProbeCount(registry, rows))
  }

  /** Probe i succeeded for identifier id. */
  ghost predicate SucceededAt(registry: Dict<int, Address>, rows: seq<StoredRow>, network: nat -> Exchange, i: int, id: int)
    requires registry.Valid()
  {
    0 <= i < ProbeCount(registry, rows) && CallAt(registry, rows, i).identifier == id && ProbeOutcome(network(i)).reachable
  }

  /** After the first k probes, an identifier is a key of the mapping exactly
      when one of those probes succeeded for it. */
  lemma {:induction false} SnapshotKeys(registry: Dict<int, Address>, rows: seq<StoredRow>, network: nat -> Exchange, k: nat, id: int)
    requires registry.Valid() && k <= ProbeCount(registry, rows)
    ensures id in SnapshotUpTo(registry, rows, network, k).entries <==>
      exists i :: i < k && SucceededAt(registry, rows, network, i, id)
  {
    if k > 0 {
      SnapshotKeys(registry, rows, network, k - 1, id);
      var m := SnapshotUpTo(registry, rows, network, k - 1);
      if exists i :: i < k && SucceededAt(registry, rows, network, i, id) {
        var i :| i < k && SucceededAt(registry, rows, network, i, id);
        if i < k - 1 {
          assert i < k - 1 && SucceededAt(registry, rows, network, i, id);
          assert id in m.entries;
        }
      }
      if id in SnapshotUpTo(registry, rows, network, k).entries {
        if id in m.entries {
          var i :| i < k - 1 && SucceededAt(registry, rows, network, i, id);
          assert i < k && SucceededAt(registry, rows, network, i, id);
        } else {
          assert SucceededAt(registry, rows, network, k - 1, id);
        }
      }
    }
  }

  /** The entry of an identifier comes from its last successful probe: later
      probes of it that fail neither remove nor alter it. */
  lemma {:induction false} SnapshotLastSuccess(registry: Dict<int, Address>, rows: seq<StoredRow>, network: nat -> Exchange, k: nat, i: nat)
    requires registry.Valid() && i < k <= ProbeCount(registry, rows)
    requires ProbeOutcome(network(i)).reachable
    requires forall i' :: i < i' < k && CallAt(registry, rows, i').identifier == CallAt(registry, rows, i).identifier ==>
      !ProbeOutcome(network(i')).reachable
    ensures var id := CallAt(registry, rows, i).identifier;
      id in SnapshotUpTo(registry, rows, network, k).entries
      && SnapshotUpTo(registry, rows, network, k).entries[id] == EntryFor(CallAt(registry, rows, i), ProbeOutcome(network(i)).count)
  {
    if i < k - 1 {
      SnapshotLastSuccess(registry, rows, network, k - 1, i);
    }
  }

  /** There is no deduplication between the passes: a registered identifier that
      also has a fetched row is probed in the registry pass and again for that row. */
  lemma NoDedup(registry: Dict<int, Address>, rows: seq<StoredRow>, network: nat -> Exchange, j: nat)
    requires registry.Valid() && j < |rows| && rows[j].identifier in registry.entries
    ensures exists i :: (0 <= i < |registry.keys| && CallAt(registry, rows, i).identifier == rows[j].identifier
      && (!network(i).ConnectFailed? ==>
            |CycleTrace(registry, rows, network)[i].sent| > 0
            && CycleTrace(registry, rows, network)[i].sent[0] == StatusPayload(StatusText, rows[j].identifier, 0)))
    ensures CallAt(registry, rows, |registry.keys| + j).identifier == rows[j].identifier
    ensures !network(|registry.keys| + j).ConnectFailed? ==>
      |CycleTrace(registry, rows, network)[|registry.keys| + j].sent| > 0
      && CycleTrace(registry, rows, network)[|registry.keys| + j].sent[0]
           == EncodeStatus(StatusDict(Some(StatusText), rows[j].statusCount, Some(rows[j].identifier)))
  {
    var i :| 0 <= i < |registry.keys| && registry.keys[i] == rows[j].identifier;
    RegistryProbeRequests(registry, rows, network, i);
    assert CallAt(registry, rows, i).identifier == rows[j].identifier;
    StoredProbeRequests(registry, rows, network, j);
  }

  /** Every key of the mapping a cycle builds is registered or has a fetched row. */
  lemma SnapshotKeysWithinSources(registry: Dict<int, Address>, rows: seq<StoredRow>, network: nat -> Exchange, id: int)
    requires registry.Valid()
    requires id in CycleSnapshot(registry, rows, network).entries
    ensures id in registry.entries || exists j :: 0 <= j < |rows| && rows[j].identifier == id
  {
    var total := ProbeCount(registry, rows);
    SnapshotKeys(registry, rows, network, total, id);
    var i :| i < total && SucceededAt(registry, rows, network, i, id);
    var n := |registry.keys|;
    if i >= n {
      assert rows[i - n].identifier == id;
    } else {
      assert registry.keys[i] == id;
    }
  }

  /** A successful stored-row probe overwrites whatever the registry pass put
      under its identifier: the entry then has the stripped stored host, the
      stored port and the freshly probed count, even when that count differs
      from the stored one. */
  lemma StoreProbeOverwrites(registry: Dict<int, Address>, rows: seq<StoredRow>, network: nat -> Exchange, j: nat)
    requires registry.Valid() && j < |rows|
    requires ProbeOutcome(network(|registry.keys| + j)).reachable
    requires forall j' :: j < j' < |rows| && rows[j'].identifier == rows[j].identifier ==>
      !ProbeOutcome(network(|registry.keys| + j')).reachable
    ensures var m := CycleSnapshot(registry, rows, network);
      && rows[j].identifier in m.entries
      && m.entries[rows[j].identifier] == EntryFor(StoreCall(rows[j]), ProbeOutcome(network(|registry.keys| + j)).count)
      && m.entries[rows[j].identifier].clientHost == Text.Strip(rows[j].clientHost)
      && m.entries[rows[j].identifier].clientPort == rows[j].clientPort
  {
    var n := |registry.keys|;
    var total := ProbeCount(registry, rows);
    assert CallAt(registry, rows, n + j) == StoreCall(rows[j]);
    forall i' | n + j < i' < total && CallAt(registry, rows, i').identifier == CallAt(registry, rows, n + j).identifier
      ensures !ProbeOutcome(network(i')).reachable
    {
      assert rows[i' - n].identifier == rows[j].identifier;
    }
    SnapshotLastSuccess(registry, rows, network, total, n + j);
  }

  /** A failed stored-row probe removes nothing: when the registry probe of an
      identifier succeeded and none of its stored-row probes did, its entry is
      the registry pass's, with the count that probe returned. */
  lemma FailedStoreProbeKeepsEntry(registry: Dict<int, Address>, rows: seq<StoredRow>, network: nat -> Exchange, i: nat)
    requires registry.Valid() && i < |registry.keys|
    requires ProbeOutcome(network(i)).reachable
    requires forall j :: 0 <= j < |rows| && rows[j].identifier == registry.keys[i] ==>
      !ProbeOutcome(network(|registry.keys| + j)).reachable
    ensures var m := CycleSnapshot(registry, rows, network);
      var a := registry.entries[registry.keys[i]];
      registry.keys[i] in m.entries
      && m.entries[registry.keys[i]] == ClientEntry(registry.keys[i], true, a.clientHost, a.clientPort, ProbeOutcome(network(i)).count)
  {
    var n := |registry.keys|;
    var total := ProbeCount(registry, rows);
    forall i' | i < i' < total && CallAt(registry, rows, i').identifier == CallAt(registry, rows, i).identifier
      ensures !ProbeOutcome(network(i')).reachable
    {
      if i' >= n {
        assert rows[i' - n].identifier == registry.keys[i];
      } else {
        assert false;
      }
    }
    SnapshotLastSuccess(registry, rows, network, total, i);
  }

  /** When the fetch yields no rows (the database failed), the table written
      at the end of the cycle holds only registered clients: every stored
      client that is not in the registry is dropped. */
  lemma EmptyFetchKeepsOnlyRegistered(registry: Dict<int, Address>, network: nat -> Exchange)
    requires registry.Valid()
    ensures forall r :: r in Written(CycleSnapshot(registry, [], network)) ==> r.identifier in registry.entries
  {
    var m := CycleSnapshot(registry, [], network);
    forall r | r in Written(m)
      ensures r.identifier in registry.entries
    {
      var i :| 0 <= i < |Written(m)| && Written(m)[i] == r;
      assert r.identifier == m.keys[i] && m.keys[i] in m.entries;
      SnapshotKeysWithinSources(registry, [], network, m.keys[i]);
    }
  }
}
