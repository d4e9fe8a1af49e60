/**
 * The active-connection rows the tray observes: one row per active connection, in the
 * order of the filtering proxy model, each carrying the attributes the tray reads
 * (connection uuid, activation state, icon class).
 */
module Connections {
  import opened Wrappers

  type Uuid = string

  /**
   * The identity of one row. It is handed out when the row is inserted and never reused,
   * so it follows the row across inserts and removals elsewhere, as a persistent model
   * index does.
   */
  type Key = nat

  /** Activation state of an active connection, as the network service reports it. */
  datatype ConnState = Unknown | Activating | Activated | Deactivating | Deactivated

  /**
   * An icon class. The theme lookup that turns a class into an image is outside the model,
   * so the classes other than "offline" are opaque codes. `Invalid` is the out-of-range
   * value the tray stores as its current icon before the first flush.
   */
  datatype Icon = NetworkOffline | Themed(code: nat) | Invalid

  /** The attributes of a connection as it appears in the model. */
  datatype Connection = Connection(uuid: Uuid, state: ConnState, icon: Icon)

  /** The attributes a data-changed notification can alter. */
  datatype Status = Status(state: ConnState, icon: Icon)

  datatype Row = Row(key: Key, uuid: Uuid, state: ConnState, icon: Icon)

  /** A connection that is going away: the tray treats it like a removed row. */
  predicate Terminal(st: ConnState)
  {
    st == Deactivating || st == Deactivated
  }

  predicate Holds(row: Row, c: Connection)
  {
    row.uuid == c.uuid && row.state == c.state && row.icon == c.icon
  }

  predicate KeysDistinct(rows: seq<Row>)
  {
    forall i, j :: 0 <= i < |rows| && 0 <= j < |rows| && i != j ==> rows[i].key != rows[j].key
  }

  predicate KeysBelow(rows: seq<Row>, bound: nat)
  {
    forall i :: 0 <= i < |rows| ==> rows[i].key < bound
  }

  /** The first position at or after `from` whose row has key `k`. */
  function FindFrom(rows: seq<Row>, k: Key, from: nat): (r: Option<nat>)
    requires from <= |rows|
    ensures r.Some? ==> from <= r.value < |rows| && rows[r.value].key == k
    ensures r.Some? ==> forall j :: from <= j < r.value ==> rows[j].key != k
    ensures r.None? <==> forall j :: from <= j < |rows| ==> rows[j].key != k
    decreases |rows| - from
  {
    if from == |rows| then None
    else if rows[from].key == k then Some(from)
    else FindFrom(rows, k, from + 1)
  }

  /** Resolves a key to the current position of its row, if the row is still there. */
  function Find(rows: seq<Row>, k: Key): (r: Option<nat>)
    ensures r.Some? ==> r.value < |rows| && rows[r.value].key == k
    ensures r.Some? ==> forall j :: 0 <= j < r.value ==> rows[j].key != k
    ensures r.None? <==> forall j :: 0 <= j < |rows| ==> rows[j].key != k
  {
    FindFrom(rows, k, 0)
  }

  /** A reference to key `k` is valid: its row has not been removed. */
  predicate Present(rows: seq<Row>, k: Key)
  {
    Find(rows, k).Some?
  }

  /** With distinct keys, a row's key resolves back to exactly that row. */
  lemma FindKey(rows: seq<Row>, i: nat)
    requires KeysDistinct(rows) && i < |rows|
    ensures Find(rows, rows[i].key) == Some(i)
  {
  }

  /**
   * The icon class a reference stands for: the class of the row it points at, or the
   * offline class when it is invalid.
   */
  function IconOf(rows: seq<Row>, ref: Option<Key>): (r: Icon)
    ensures ref.None? ==> r == NetworkOffline
    ensures ref.Some? && !Present(rows, ref.value) ==> r == NetworkOffline
    ensures KeysDistinct(rows) ==>
      forall i :: 0 <= i < |rows| && ref == Some(rows[i].key) ==> r == rows[i].icon
  {
    match ref
    case None => NetworkOffline
    case Some(k) =>
      match Find(rows, k)
      case None => NetworkOffline
      case Some(i) => rows[i].icon
  }

  /** Positions at or after `from` whose connection uuid equals `u`, in ascending order. */
  function MatchesFrom(rows: seq<Row>, u: Uuid, from: nat): (r: seq<nat>)
    requires from <= |rows|
    ensures |r| <= |rows| - from
    ensures forall j: nat :: j in r <==> from <= j < |rows| && rows[j].uuid == u
    ensures forall a, b :: 0 <= a < b < |r| ==> r[a] < r[b]
    decreases |rows| - from
  {
    if from == |rows| then []
    else
      var rest := MatchesFrom(rows, u, from + 1);
      if rows[from].uuid == u then
        assert forall b :: 0 <= b < |rest| ==> rest[b] in rest;
        [from] + rest
      else rest
  }

  /**
   * The exact-match lookup of a uuid over every row, starting at the first: all matching
   * positions, first match first.
   */
  function Matches(rows: seq<Row>, u: Uuid): (r: seq<nat>)
    ensures |r| <= |rows|
    ensures forall j: nat :: j in r <==> j < |rows| && rows[j].uuid == u
    ensures forall a, b :: 0 <= a < b < |r| ==> r[a] < r[b]
  {
    MatchesFrom(rows, u, 0)
  }

  /** The rows created for freshly inserted connections, keyed `from`, `from + 1`, ... */
  function NewRows(conns: seq<Connection>, from: nat): (r: seq<Row>)
    ensures |r| == |conns|
    ensures forall j :: 0 <= j < |r| ==> r[j].key == from + j && Holds(r[j], conns[j])
  {
    seq(|conns|, j requires 0 <= j < |conns| =>
      Row(from + j, conns[j].uuid, conns[j].state, conns[j].icon))
  }

  /** The rows after a data-changed notification for positions `first`, `first + 1`, ... */
  function ApplyStatuses(rows: seq<Row>, first: nat, changes: seq<Status>): (r: seq<Row>)
    requires first + |changes| <= |rows|
    ensures |r| == |rows|
    ensures forall j :: 0 <= j < |rows| ==> r[j].key == rows[j].key && r[j].uuid == rows[j].uuid
    ensures forall j :: 0 <= j < |rows| && !(first <= j < first + |changes|) ==> r[j] == rows[j]
    ensures forall j :: 0 <= j < |changes| ==>
      r[first + j].state == changes[j].state && r[first + j].icon == changes[j].icon
  {
    seq(|rows|, j requires 0 <= j < |rows| =>
      if first <= j < first + |changes|
      then rows[j].(state := changes[j - first].state, icon := changes[j - first].icon)
      else rows[j])
  }

  /** The keys of the rows at positions `first` through `last`. */
  function RangeKeys(rows: seq<Row>, first: int, last: int): set<Key>
  {
    set j | 0 <= j < |rows| && first <= j <= last :: rows[j].key
  }
}
