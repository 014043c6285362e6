/** The persistent client table (db_operations.py), seen only through the two
    operations the server calls: fetch the connected rows, and replace the whole
    connected set inside one transaction. The table is a sequence of rows; the
    SQL itself is not modelled, and whether the database answers is an input. */
module ClientStore {
  import opened Messages
  import opened OrderedDicts

  /** One row of client_record; status_count is the one nullable column. */
  datatype StoredRow = StoredRow(
    identifier: int, statusCount: Option<int>, isConnected: bool,
    clientHost: string, clientPort: int)

  /** One value of the mapping built by a reconciliation cycle. */
  datatype ClientEntry = ClientEntry(
    identifier: int, isConnected: bool, clientHost: string, clientPort: int, statusCount: int)

  /** The rows `SELECT * ... WHERE is_connected = true` yields, in table order. */
  function ConnectedRows(table: seq<StoredRow>): (rows: seq<StoredRow>)
    ensures forall r :: r in rows <==> r in table && r.isConnected
    ensures |rows| <= |table|
  {
    if table == [] then []
    else
      var last := table[|table| - 1];
      var prefix := table[..|table| - 1];
      assert table == prefix + [last];
      ConnectedRows(prefix) + (if last.isConnected then [last] else [])
  }

  /** The row inserted for key `id` of the written mapping. */
  function RowFor(id: int, e: ClientEntry): StoredRow {
    StoredRow(id, Some(e.statusCount), true, e.clientHost, e.clientPort)
  }

  /** The rows the replace-all write inserts, one per key, in the mapping's key order. */
  function RowsOf(m: Dict<int, ClientEntry>, n: nat): (rows: seq<StoredRow>)
    requires m.Valid() && n <= |m.keys|
    ensures |rows| == n
    ensures forall i :: 0 <= i < n ==> rows[i] == RowFor(m.keys[i], m.entries[m.keys[i]])
  {
    if n == 0 then [] else RowsOf(m, n - 1) + [RowFor(m.keys[n - 1], m.entries[m.keys[n - 1]])]
  }

  /** The whole table after the write of `m`. */
  function Written(m: Dict<int, ClientEntry>): seq<StoredRow>
    requires m.Valid()
  {
    RowsOf(m, |m.keys|)
  }

  class Store {
    var table: seq<StoredRow>

    constructor (rows: seq<StoredRow>)
      ensures table == rows
    {
      table := rows;
    }

    /** query_saved_clients_from_db: the connected rows, or [] when the database fails. */
    method FetchConnected(available: bool) returns (rows: seq<StoredRow>)
      ensures !available ==> rows == []
      ensures available ==> forall r :: r in rows <==> r in table && r.isConnected
      ensures available ==> rows == ConnectedRows(table)
    {
      if available {
        rows := ConnectedRows(table);
      } else {
        rows := [];
      }
    }

    /** update_client_list_to_db: truncate and insert in one transaction, so the
        table is either exactly the rows of `m` or, when the database fails, as it was. */
    method ReplaceConnected(m: Dict<int, ClientEntry>, available: bool)
      requires m.Valid()
      modifies this
      ensures table == if available then Written(m) else old(table)
    {
      if available {
        table := Written(m);
      }
    }
  }

  /** After a replace-all write, a fetch returns exactly the written rows: no row
      of the previous table survives, and the i-th fetched row is the row of the
      mapping's i-th key, marked connected, with that key's host, port and count. */
  lemma FetchAfterReplace(m: Dict<int, ClientEntry>)
    requires m.Valid()
    ensures ConnectedRows(Written(m)) == Written(m)
    ensures |ConnectedRows(Written(m))| == |m.keys|
    ensures forall i :: 0 <= i < |m.keys| ==>
      var r := ConnectedRows(Written(m))[i];
      var e := m.entries[m.keys[i]];
      r.identifier == m.keys[i] && r.isConnected && r.statusCount == Some(e.statusCount)
      && r.clientHost == e.clientHost && r.clientPort == e.clientPort
  {
    AllConnectedKept(Written(m));
  }

  /** Filtering a table whose rows are all connected keeps every row. */
  lemma {:induction false} AllConnectedKept(table: seq<StoredRow>)
    requires forall i :: 0 <= i < |table| ==> table[i].isConnected
    ensures ConnectedRows(table) == table
  {
    if table != [] {
      var n := |table| - 1;
      AllConnectedKept(table[..n]);
      assert table == table[..n] + [table[n]];
    }
  }
}
