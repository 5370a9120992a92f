/** One row of the `sensor_data` table, as the endpoints store it and the
    front-end scripts receive it, and the "latest reading per device" notion
    that the query endpoint and the scripts share. */
module Readings {

  /** Server time; the store fills `created_at` from it. */
  type Timestamp = int

  datatype Row = Row(
    id: int,
    deviceId: string,
    sensorType: string,
    value: real,
    estatus: string,
    categoria: string,
    createdAt: Timestamp)

  /** `r` is stored in `rows` and no row of the same device has a larger id:
      the row kept by `MAX(id) ... GROUP BY device_id`, and the first row of
      that device once the rows are sorted by id, descending. */
  predicate IsLatest(rows: seq<Row>, r: Row) {
    r in rows && forall x :: x in rows && x.deviceId == r.deviceId ==> x.id <= r.id
  }

  /** `id` is the table's primary key. */
  predicate UniqueIds(rows: seq<Row>) {
    forall i, j :: 0 <= i < j < |rows| ==> rows[i].id != rows[j].id
  }

  /** No device has two rows with the same id; ids may repeat across
      devices. Implied by UniqueIds. */
  predicate UniquePerDevice(rows: seq<Row>) {
    forall i, j :: 0 <= i < j < |rows| && rows[i].deviceId == rows[j].deviceId ==> rows[i].id != rows[j].id
  }

  predicate SortedByIdDesc(s: seq<Row>) {
    forall i, j :: 0 <= i < j < |s| ==> s[i].id >= s[j].id
  }

  /** When no device repeats an id, a device has at most one latest row. */
  lemma LatestIsUnique(rows: seq<Row>, a: Row, b: Row)
    requires UniquePerDevice(rows)
    requires IsLatest(rows, a) && IsLatest(rows, b) && a.deviceId == b.deviceId
    ensures a == b
  {
    var i :| 0 <= i < |rows| && rows[i] == a;
    var j :| 0 <= j < |rows| && rows[j] == b;
    assert a.id == b.id;
  }

  /** Every device that has a row has a latest row. */
  lemma {:induction false} LatestExists(rows: seq<Row>, x: Row)
    requires x in rows
    ensures exists r :: IsLatest(rows, r) && r.deviceId == x.deviceId
  {
    if x == rows[|rows| - 1] && forall y :: y in rows[..|rows| - 1] ==> y.deviceId != x.deviceId {
      assert rows == rows[..|rows| - 1] + [x];
      assert IsLatest(rows, x);
    } else {
      var prefix := rows[..|rows| - 1];
      assert rows == prefix + [rows[|rows| - 1]];
      var y: Row :| y in prefix && y.deviceId == x.deviceId;
      LatestExists(prefix, y);
      var r :| IsLatest(prefix, r) && r.deviceId == x.deviceId;
      var last := rows[|rows| - 1];
      if last.deviceId == x.deviceId && last.id > r.id {
        assert IsLatest(rows, last);
      } else {
        assert IsLatest(rows, r);
      }
    }
  }

  /** Sorts `a` in place by id, largest first: the effect of
      `array.sort((a, b) => b.id - a.id)`. */
  method SortByIdDescending(a: array<Row>)
    modifies a
    ensures SortedByIdDesc(a[..])
    ensures multiset(a[..]) == old(multiset(a[..]))
  {
    var i := 0;
    while i < a.Length
      invariant 0 <= i <= a.Length
      invariant forall k, m :: 0 <= k < m < i ==> a[k].id >= a[m].id
      invariant multiset(a[..]) == old(multiset(a[..]))
    {
      var j := i;
      while j > 0 && a[j - 1].id < a[j].id
        invariant 0 <= j <= i
        invariant forall k, m :: 0 <= k < m <= i && m != j ==> a[k].id >= a[m].id
        invariant multiset(a[..]) == old(multiset(a[..]))
      {
        SwapAdjacent(a, j - 1);
        j := j - 1;
      }
      i := i + 1;
    }
  }

  /** Exchanges `a[k]` and `a[k + 1]`. */
  method SwapAdjacent(a: array<Row>, k: nat)
    requires k + 1 < a.Length
    modifies a
    ensures a[..] == old(a[..])[k := old(a[k + 1])][k + 1 := old(a[k])]
    ensures multiset(a[..]) == old(multiset(a[..]))
  {
    a[k], a[k + 1] := a[k + 1], a[k];
  }
}
