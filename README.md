# Liveness server — a Dafny model

The server keeps track of which clients are alive. A client announces
itself by opening a connection and sending a heartbeat (its identifier,
host and port). `handle_client` is written to record the sender in the
in-memory registry `active_clients` and to answer with an
acknowledgement. With the protobuf codec that main.py installs, though,
it never records anyone (see below); it only answers.

A background loop runs one reconciliation cycle after another. Each cycle
does the following:

1. It fetches the connected clients from a PostgreSQL table.
2. It sends a status request to every registered client, then to every
   fetched row.
3. It builds a fresh mapping of the clients that answered.
4. It replaces the stored table with that mapping.
5. It sleeps for 30 to 35 seconds.

Messages are protobuf-encoded. When the encoders find a field missing (a
TypeError while assigning it), they emit an error message instead. Other
exceptions raised while assigning fields are not caught.

The model is split into these modules:

- `OrderedDicts`: Python dictionaries with their insertion order.
- `Messages`: the observable behaviour of the protobuf codec.
- `Text`: `str.strip()`.
- `ClientStore`: the client table.
  - `Store.FetchConnected` is the query of the connected rows.
  - `Store.ReplaceConnected` is the transactional truncate-and-insert.
- `Reconciliation`: a value-level specification of one cycle.
  - It gives the k-th probe (`CallAt`).
  - It gives the mapping after k probes (`SnapshotUpTo`).
  - It gives the warnings logged after k probes (`WarnedUpTo`).
  - It gives what the first k probes send, and to which address
    (`TraceUpTo`, built from `TraceOf`).
  - Its lemmas say what a cycle leaves behind.
- `LivenessServer`: the server itself.
  - The `Server` class holds the registry as a field.
  - Its methods are the heartbeat handler (`HandleClient`) and one probe
    (`ProbeClient`).
  - `ReconcileCycle` is one cycle of the reconciliation loop. Its two loops
    are proved against the specification in `Reconciliation`: the mapping
    and warnings they build, and the traffic each probe puts on the network
    (address, status request, acknowledgement), in probe order.

Inputs from outside the program are passed in as parameters:

- Bytes read from a socket become a `seq<bv8>` together with the decoding
  function.
- The network seen by probe number k of a cycle is `network(k)`. An
  `Exchange` says whether that probe:
  - fails to connect or loses the connection before the reply;
  - gets a reply, and then whether the acknowledgement write goes through.
- Whether the database answers is a boolean.
- The random pause is any value in [30, 35].

Behaviour of the code worth knowing:

- **No deduplication.** A client that is both registered and stored is
  probed twice in a cycle, once with message_count 0 and once with its
  stored count (`NoDedup`). A successful stored-row probe
  overwrites the registry pass's entry (`StoreProbeOverwrites`).
- **Acknowledgement failure counts as down.** If writing the
  acknowledgement fails, the probe reports (False, 0). The error handler
  covers the whole exchange (`ProbeClient`, `ProbeOutcome`).
- **The text is "ACK".** The acknowledgement text is "ACK"
  (server.py:65, server.py:167), although the repository's own test expects
  "ack" (tests/test_async_server.py:80).
- **The empty-reply check never fires.** The "no reply" check tests
  `data is None`, which a stream read never returns. An empty reply is
  therefore decoded like any other reply. Once the acknowledgement is
  written, the probe counts as reachable (`ProbeOutcome`).
- **A protobuf heartbeat never registers its sender.** The protobuf
  decoder stores the enum member under "type", and `handle_client`
  compares it with the text "heartbeat". The sender is never registered
  (`ProtobufHeartbeatNeverRegisters`). Only the stored table keeps clients
  alive across cycles.
- **A NULL `status_count` never matches.** The reply count of a probe is
  never NULL, so a successful probe of a row whose `status_count` is NULL
  always logs the count warning (`WarningsAreCountMismatches`).
- **A NULL `status_count` as the model's encoder sees it.** The model's
  encoder accepts any value in "type", including the text "status". It
  then turns the request of a row with a NULL `status_count` into an error
  message, and every other request into a status message
  (`StatusRequestPayload`, `StoredProbeRequests`). If "type" is an enum
  field of the generated protobuf module, the text "status" already fails
  for every request. The pure-Python protobuf runtime raises TypeError
  there, which turns every request into an error message. The upb runtime
  raises ValueError, which ends the cycle. That module is not part of this
  model.
- **A failed fetch loses stored clients.** When the fetch fails, it
  returns an empty list, and the write at the end of the cycle then drops
  every stored client that is not registered (`EmptyFetchKeepsOnlyRegistered`).

## Model

| member | source | states |
|---|---|---|
| OrderedDicts.Dict.Put | server.py:158-161 | `d[k] = v` on a dict without duplicate keys: k maps to v, every other key keeps its value, an existing key keeps its position and a new key goes last |
| OrderedDicts.Empty | server.py:86 | `{}` is a valid dict with no keys |
| Messages.DecodeHeartbeat | protobuf_encode_decoder.py:31-54 | a record comes back exactly for a heartbeat-typed heartbeat payload, with its fields; its "type" is never the text "heartbeat" |
| Messages.HeartbeatRoundTrip | protobuf_encode_decoder.py:10-54 | decoding the encoding of a decoded heartbeat gives it back |
| Messages.StatusRoundTrip | protobuf_encode_decoder.py:56-96 | decoding the encoding of a decoded status reply gives it back |
| Messages.HeartbeatDecodesBack | protobuf_encode_decoder.py:10-54 | a heartbeat dictionary survives encoding and decoding exactly when all five fields are present and "type" is the heartbeat enum member, and then comes back field by field |
| Messages.StatusDecodesBack | protobuf_encode_decoder.py:56-96 | a status dictionary survives encoding and decoding exactly when all three fields are present and "type" is the status enum member, and then comes back field by field; otherwise it decodes as the error record, with message count read as 0 and no identifier |
| Text.StripStartIsSuffix | server.py:114 | lstrip removes a whitespace prefix and stops at a non-whitespace character |
| Text.StripEndIsPrefix | server.py:114 | rstrip removes a whitespace suffix and stops at a non-whitespace character |
| Text.StripIsSlice | server.py:114 | `strip()` yields a slice of its input with only whitespace cut from either side and no whitespace at its ends |
| Text.StripIdempotent | server.py:114 | stripping twice equals stripping once |
| Text.TrimmedStripsToItself | server.py:114 | a string without whitespace ends is unchanged by strip |
| Text.StripRemovesPadding | db_operations.py:23 | a host read back from the blank-padded CHAR(200) column strips to the host that was written |
| Text.AllSpaceStripsAway | server.py:114 | an all-whitespace string lstrips to "" |
| Text.PaddingStripsOff | server.py:114 | rstrip removes exactly the padding after text ending in a non-space |
| ClientStore.ConnectedRows | db_operations.py:30-33 | the selected rows are exactly the table's rows with is_connected true |
| ClientStore.RowsOf | db_operations.py:58-64 | the i-th inserted row is the i-th key of the mapping with its host, port, count and is_connected true |
| ClientStore.Store.constructor | db_operations.py:5-7 | the store starts with the given table |
| ClientStore.Store.FetchConnected | db_operations.py:9-42 | the connected rows when the database answers, [] when it fails |
| ClientStore.Store.ReplaceConnected | db_operations.py:44-71 | the table becomes exactly the mapping's rows, or stays as it was when the transaction fails |
| ClientStore.FetchAfterReplace | db_operations.py:30-64 | after a write, the next fetch returns exactly the written rows, in the order the model keeps them (insertion order): no earlier row survives |
| ClientStore.AllConnectedKept | db_operations.py:30-33 | filtering a table whose rows are all connected keeps it whole |
| Reconciliation.StatusRequestPayload | server.py:93-118 | the status request encodes to a status message with the identifier and seed, or to an error message when the seed is NULL |
| Reconciliation.ProbeOutcome | server.py:38-78 | connection errors and a failed acknowledgement give (False, 0); a delivered acknowledgement gives (True, reported count or 0) |
| Reconciliation.SnapshotUpTo | server.py:86-129 | the mapping after k probes is a valid dict whose every entry is connected and keyed by its own identifier |
| Reconciliation.WarnedUpTo | server.py:130-133 | at most one warning per probe |
| Reconciliation.WarnedMembers | server.py:122-133 | a probe is warned about exactly when it is a stored-row probe that succeeded with a count other than the stored status_count |
| Reconciliation.WarnedInOrder | server.py:112-133 | warnings are logged in probe order, each probe at most once |
| Reconciliation.SnapshotKeys | server.py:86-129 | an identifier is in the mapping exactly when some probe of it succeeded |
| Reconciliation.SnapshotLastSuccess | server.py:98-129 | an identifier's entry comes from its last successful probe; later failed probes neither remove nor alter it |
| Reconciliation.NoDedup | server.py:89-121 | a registered identifier with a stored row is probed in both passes: the registry probe asks with message_count 0, the stored-row probe with the stored status_count |
| Reconciliation.TraceUpTo | server.py:89-121 | the traffic of the first k probes has one entry per probe |
| Reconciliation.TraceUpToProbes | server.py:89-121 | the i-th traffic entry is the i-th call's: registered clients first in insertion order, then the fetched rows in order |
| Reconciliation.RegistryProbeRequests | server.py:89-97 | the registry pass connects to each client's registered address and sends a status request with message_count 0 and the client's identifier |
| Reconciliation.StoredProbeRequests | server.py:112-121 | the stored pass connects to each row's stripped host and port and sends a status request with the row's status_count, or an error message when it is NULL |
| Reconciliation.SnapshotKeysWithinSources | server.py:86-129 | every key of the mapping is registered or has a fetched row |
| Reconciliation.StoreProbeOverwrites | server.py:112-129 | a stored row's successful probe leaves its stripped host, its port and the probed count in the mapping, whatever the registry pass wrote |
| Reconciliation.FailedStoreProbeKeepsEntry | server.py:89-129 | when the registry probe succeeds and no stored-row probe of that identifier does, the entry is the registry pass's |
| Reconciliation.EmptyFetchKeepsOnlyRegistered | server.py:84-135 | after a failed fetch, the written table holds only registered identifiers |
| LivenessServer.AckReply | server.py:166-167 | the reply is the decoded dictionary with type "heartbeat" and msg "ACK" and its other fields unchanged |
| LivenessServer.AfterHeartbeat | server.py:151-165 | a message typed with the text "heartbeat" sets its identifier's address, keeping every other entry and the key order; any other message leaves the registry alone |
| LivenessServer.Server.constructor | server.py:12-22 | the registry starts empty and the server holds the given store |
| LivenessServer.Server.HandleClient | server.py:138-170 | an empty read closes the socket and changes nothing; otherwise the registry is updated by the heartbeat and the acknowledgement is encoded and sent |
| LivenessServer.Server.ProbeClient | server.py:38-78 | the reported pair is the probe outcome; the messages sent are the status request and then, once a reply arrives, the acknowledgement with the probed address and the reply's identifier |
| LivenessServer.Server.ProbeAll | server.py:86-133 | the mapping, the warnings and the traffic of the two probing loops are those of the cycle specification |
| LivenessServer.Server.ProbeRegistered | server.py:89-109 | after the first loop, the mapping, warnings and traffic are those of one probe per registered client |
| LivenessServer.Server.ProbeStored | server.py:111-133 | after the second loop, the mapping, warnings and traffic are those of every probe of the cycle |
| LivenessServer.Server.ProbeRegisteredClient | server.py:90-105 | a registered client is probed at its registered address with the request {type status, message_count 0, its identifier}, and recorded exactly when it answers |
| LivenessServer.Server.ProbeStoredRow | server.py:113-133 | a stored row is probed at its stripped host with the request {type status, its status_count, its identifier}, recorded exactly when it answers, and warned about exactly when the answered count differs |
| LivenessServer.Server.ReconcileCycle | server.py:80-136 | one cycle fetches the connected rows, sends the probes of the cycle specification, writes exactly the resulting mapping (or keeps the table when the write fails), and pauses 30 to 35 seconds |
| LivenessServer.ProtobufHeartbeatNeverRegisters | server.py:147-151 | under the protobuf decoder, no heartbeat changes the registry |
| LivenessServer.HeartbeatIdempotent | server.py:151-161 | receiving the same heartbeat twice leaves the registry as receiving it once |
| LivenessServer.AckReplyPayload | server.py:166-168 | the acknowledgement of a heartbeat record echoes its address and identifier; that of the error record encodes to an error message |
| LivenessServer.WarningsAreCountMismatches | server.py:112-133 | a cycle warns about exactly the stored-row probes that succeeded with a count other than the stored status_count |

## Left out

- `accept_client` and the module-level `clients` task table: they only
  track asyncio tasks and close sockets when a handler finishes.
- The `while True` of the reconciliation loop: one iteration is modelled.
  Successive cycles compose through `FetchAfterReplace`.
- Interleaving of handlers and the reconciliation loop at `await` points.
  This includes a new key added to the registry while the first loop
  iterates over it (a RuntimeError in Python). A repeated heartbeat that
  overwrites an existing key raises nothing, and the loop then probes the
  new address. The model runs a cycle on one registry.
- Malformed bytes, on which the protobuf parser raises DecodeError: the
  decoders are total functions on payloads.
- Messages.EncodeHeartbeat: does not model what the protobuf runtime does with
  a text value in the enum field "type", or a ValueError from `int()`.
  Only absent fields (TypeError) lead to the error message. The generated
  `messages_pb2` is not part of this model.
- Messages.EncodeStatus: as for EncodeHeartbeat, only absent fields lead to
  the error message.
- The connection_time column, the CREATE TABLE statement and the
  primary-key constraint. The CHAR(200) padding of the host appears only
  in `StripRemovesPadding`. Hosts are stored as written.
- Logging: the count warning is modelled as the list of probe numbers that
  log it. Other log lines are left out.
- The `data is None` branch of `send_a_message_to_client` cannot be
  reached, because a stream read returns bytes. The LostBeforeReply and
  ConnectFailed exchanges cover the connection errors.
- Closing the writer, and the connection parameters and the codec choice
  made in main.py.
- The JSON codec (json_encoder_decoder.py) is not part of this model.
- LivenessServer.Server.ReconcileCycle: states only the range of the pause,
  not that random.randint draws it uniformly.
- LivenessServer.Server.ReconcileCycle: covers only cycles whose probes all
  end. `open_connection` and `read(1024)` have no timeout, so a client that
  accepts the connection and never replies stalls the cycle, and then
  neither the write nor the pause happens. Every `Exchange` of the model
  ends.
- A ValueError or OverflowError raised inside an encoder is not modelled.
  Examples are an unknown enum label, or an integer outside the protobuf
  field's range. The encoder does not catch it, and neither does
  `send_a_message_to_client`, which catches only connection errors, so it
  would end the cycle.
- The 32-bit INTEGER columns and the CHAR(200) host column of
  client_record: identifiers, ports and counts are unbounded integers, and
  hosts are strings of any length, in the model. An out-of-range value or
  a host longer than 200 characters makes the INSERT fail and the
  transaction roll back. The model covers that
  outcome only as the `writeOk = false` case of `ReplaceConnected`, and
  does not tie it to the values.
- Row order: the SELECT has no ORDER BY, so SQL promises no order for the
  fetched rows. The model keeps the table as a sequence and has the fetch
  preserve its order, and the stored-row probes follow that order.
- What an empty or truncated reply decodes to depends on which
  MessageType member is zero in the generated module. The model passes
  the decoded reply in as part of the `Exchange`.
