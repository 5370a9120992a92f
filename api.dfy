/** The query endpoint: rows of one device newest first, the latest row of
    every device, the alerts raised by the latest rows, and the answer to an
    unknown action. */
module Api {
  import opened Util
  import opened Readings
  import Ingest
  import Device

  // ----- sensor_data -----

  /** PHP's `empty($device_id)` on a query-string value: the empty string
      and "0" both mean "no filter". */
  predicate NoFilter(deviceId: string) {
    deviceId == "" || deviceId == "0"
  }

  predicate NewestFirst(s: seq<Row>) {
    forall i, j :: 0 <= i < j < |s| ==> s[i].createdAt >= s[j].createdAt
  }

  /** Places `x` in front of the first row that is not newer than it. */
  function InsertByTime(x: Row, s: seq<Row>): (r: seq<Row>)
    requires NewestFirst(s)
    ensures NewestFirst(r)
    ensures multiset(r) == multiset(s) + multiset{x}
  {
    if s == [] then [x]
    else if x.createdAt >= s[0].createdAt then [x] + s
    else
      var rest := InsertByTime(x, s[1..]);
      assert s == [s[0]] + s[1..];
      NewerThanInserted(x, s, rest);
      NewestFirstCons(s[0], rest);
      [s[0]] + rest
  }

  /** The head of a newest-first sequence that is newer than `x` is at
      least as new as every row of the rest with `x` inserted. */
  lemma NewerThanInserted(x: Row, s: seq<Row>, rest: seq<Row>)
    requires NewestFirst(s) && s != [] && x.createdAt < s[0].createdAt
    requires multiset(rest) == multiset(s[1..]) + multiset{x}
    ensures forall y :: y in rest ==> s[0].createdAt >= y.createdAt
  {
    forall y | y in rest
      ensures s[0].createdAt >= y.createdAt
    {
      assert y in multiset(rest);
      if y != x {
        assert y in s[1..];
        var k :| 0 <= k < |s[1..]| && s[1..][k] == y;
        assert s[k + 1] == y;
      }
    }
  }

  lemma NewestFirstCons(y: Row, rest: seq<Row>)
    requires NewestFirst(rest) && forall z :: z in rest ==> y.createdAt >= z.createdAt
    ensures NewestFirst([y] + rest)
  {
    var s := [y] + rest;
    forall i, j | 0 <= i < j < |s|
      ensures s[i].createdAt >= s[j].createdAt
    {
      if i == 0 {
        assert s[j] == rest[j - 1];
        assert s[j] in rest;
      } else {
        assert s[i] == rest[i - 1] && s[j] == rest[j - 1];
      }
    }
  }

  /** `ORDER BY created_at DESC`. The database may order rows with equal
      times either way; this is one of the orders it may return. */
  function SortByTime(s: seq<Row>): (r: seq<Row>)
    ensures NewestFirst(r)
    ensures multiset(r) == multiset(s)
  {
    if s == [] then []
    else
      assert s == [s[0]] + s[1..];
      InsertByTime(s[0], SortByTime(s[1..]))
  }

  /** `action=sensor_data`: every row when no device is given, otherwise
      exactly the rows of that device, newest first. */
  function SensorData(rows: seq<Row>, deviceId: string): (r: seq<Row>)
    ensures NoFilter(deviceId) ==> r == rows
    ensures !NoFilter(deviceId) ==>
              NewestFirst(r) && multiset(r) == multiset(Filter(rows, (x: Row) => x.deviceId == deviceId))
    ensures !NoFilter(deviceId) ==> forall x :: x in r <==> x in rows && x.deviceId == deviceId
  {
    if NoFilter(deviceId) then rows
    else
      var mine := Filter(rows, (x: Row) => x.deviceId == deviceId);
      var r := SortByTime(mine);
      assert forall x :: x in r <==> x in mine by {
        forall x ensures x in r <==> x in mine {
          assert x in r <==> x in multiset(r);
          assert x in mine <==> x in multiset(mine);
        }
      }
      r
  }

  // ----- latest_data -----

  /** `action=latest_data`: the rows joined with the maximum id of their
      device, in table order. */
  function LatestData(rows: seq<Row>): (r: seq<Row>)
    ensures forall x :: x in r <==> IsLatest(rows, x)
  {
    Filter(rows, (x: Row) => IsLatest(rows, x))
  }

  /** With `id` as primary key, latest_data has exactly one row for every
      device that has a row. */
  lemma LatestDataOnePerDevice(rows: seq<Row>)
    requires UniqueIds(rows)
    ensures forall x :: x in rows ==> exists y :: y in LatestData(rows) && y.deviceId == x.deviceId
    ensures forall i, j :: 0 <= i < j < |LatestData(rows)| ==>
              LatestData(rows)[i].deviceId != LatestData(rows)[j].deviceId
  {
    forall x | x in rows
      ensures exists y :: y in LatestData(rows) && y.deviceId == x.deviceId
    {
      LatestExists(rows, x);
    }
    LatestDataDistinctDevices(rows);
  }

  lemma LatestDataDistinctDevices(rows: seq<Row>)
    requires UniqueIds(rows)
    ensures forall i, j :: 0 <= i < j < |LatestData(rows)| ==>
              LatestData(rows)[i].deviceId != LatestData(rows)[j].deviceId
  {
    var latest := LatestData(rows);
    assert NoDuplicates(rows);
    FilterNoDuplicates(rows, (x: Row) => IsLatest(rows, x));
    assert NoDuplicates(latest);
    forall i, j | 0 <= i < j < |latest|
      ensures latest[i].deviceId != latest[j].deviceId
    {
      assert latest[i] in latest && latest[j] in latest;
      if latest[i].deviceId == latest[j].deviceId {
        LatestIsUnique(rows, latest[i], latest[j]);
      }
    }
  }

  // ----- alerts -----

  /** The statuses the alerts query selects. Of the front end's five labels
      only "Alta" is among them. */
  const AlertStatuses: seq<string> := ["Alta", "Muy Alta", "Muy Baja"]

  /** The `WHERE estatus IN (...)` condition of the alerts query. */
  predicate Alerting(x: Row) {
    x.estatus in AlertStatuses
  }

  /** The alerts query: the latest rows whose status is one of AlertStatuses. */
  function AlertRows(rows: seq<Row>): (r: seq<Row>)
    ensures forall x :: x in r <==> IsLatest(rows, x) && x.estatus in AlertStatuses
  {
    Filter(LatestData(rows), Alerting)
  }

  datatype AlertType = Info | Warning | Critical

  datatype Alert = Alert(id: int, title: string, message: string, kind: AlertType, time: Timestamp)

  /** The `switch` on a row's status: the alert it raises under number `id`,
      or none for a status without a case. */
  function StatusAlert(row: Row, id: int): (a: Option<Alert>)
    ensures a.Some? <==> row.estatus in AlertStatuses
    ensures a.Some? ==> a.value.id == id && a.value.time == row.createdAt
    ensures a.Some? ==> (a.value.kind == Warning <==> row.estatus == "Alta")
    ensures a.Some? ==> (a.value.kind == Critical <==> row.estatus != "Alta")
  {
    if row.estatus == "Muy Baja" then
      Some(Alert(id, row.deviceId + " - Presión Muy Baja",
        "El dispositivo ha detectado una presión anormalmente baja", Critical, row.createdAt))
    else if row.estatus == "Muy Alta" then
      Some(Alert(id, row.deviceId + " - Presión Muy Alta",
        "El dispositivo ha detectado una presión anormalmente alta", Critical, row.createdAt))
    else if row.estatus == "Alta" then
      Some(Alert(id, row.deviceId + " - Presión Alta",
        "La presión está por encima del rango normal", Warning, row.createdAt))
    else None
  }

  /** An alert's title names the device and the stored status. */
  lemma StatusAlertTitle(row: Row, id: int)
    requires Alerting(row)
    ensures StatusAlert(row, id).value.title == row.deviceId + " - Presión " + row.estatus
  {
  }

  /** The closing alert the endpoint always appends. */
  function SystemAlert(id: int, now: Timestamp): (a: Alert)
    ensures a.id == id && a.kind == Info && a.time == now
  {
    Alert(id, "Sistema Actualizado", "El sistema se ha actualizado correctamente", Info, now)
  }

  /** The alerts the loop has appended after visiting `rows`, numbered from 1. */
  function AlertsOf(rows: seq<Row>): (r: seq<Alert>)
    ensures |r| <= |rows|
  {
    if rows == [] then []
    else
      var before := AlertsOf(rows[..|rows| - 1]);
      match StatusAlert(rows[|rows| - 1], |before| + 1)
      case Some(a) => before + [a]
      case None => before
  }

  /** One more row adds its alert, if it has one, numbered after the others. */
  lemma AlertsOfSnoc(rows: seq<Row>)
    requires rows != []
    ensures var before := AlertsOf(rows[..|rows| - 1]);
            var last := rows[|rows| - 1];
            AlertsOf(rows) == before + (if Alerting(last) then [StatusAlert(last, |before| + 1).value] else [])
  {
  }

  /** The status alerts are the alerting rows, in result order, numbered
      1..k with no gap. */
  lemma {:induction false} AlertsMatchRows(rows: seq<Row>)
    ensures |AlertsOf(rows)| == |Filter(rows, Alerting)|
    ensures forall i :: 0 <= i < |AlertsOf(rows)| ==>
      Some(AlertsOf(rows)[i]) == StatusAlert(Filter(rows, Alerting)[i], i + 1)
  {
    if rows != [] {
      var init, last := rows[..|rows| - 1], rows[|rows| - 1];
      AlertsMatchRows(init);
      assert Filter(rows, Alerting) == Filter(init, Alerting) + (if Alerting(last) then [last] else []) by {
        assert rows == init + [last];
        FilterSnoc(init, last, Alerting);
      }
      AlertsOfSnoc(rows);
      NumberedStep(AlertsOf(init), Filter(init, Alerting), last);
    }
  }

  /** The step of AlertsMatchRows, on the sequences alone. */
  lemma NumberedStep(before: seq<Alert>, kept: seq<Row>, last: Row)
    requires |before| == |kept|
    requires forall i :: 0 <= i < |before| ==> Some(before[i]) == StatusAlert(kept[i], i + 1)
    ensures var alerts := before + (if Alerting(last) then [StatusAlert(last, |before| + 1).value] else []);
            var alerting := kept + (if Alerting(last) then [last] else []);
            |alerts| == |alerting| &&
            forall i :: 0 <= i < |alerts| ==> Some(alerts[i]) == StatusAlert(alerting[i], i + 1)
  {
    var alerts := before + (if Alerting(last) then [StatusAlert(last, |before| + 1).value] else []);
    var alerting := kept + (if Alerting(last) then [last] else []);
    forall i | 0 <= i < |alerts|
      ensures Some(alerts[i]) == StatusAlert(alerting[i], i + 1)
    {
      if i < |before| {
        assert alerts[i] == before[i] && alerting[i] == kept[i];
      } else {
        assert alerting[i] == last;
      }
    }
  }

  /** The alert-building loop of `action=alerts`: one alert per alerting
      row, numbered by a counter that starts at 1, then the closing alert
      numbered one past the status alerts. */
  method BuildAlerts(result: seq<Row>, now: Timestamp) returns (alerts: seq<Alert>)
    ensures alerts == AlertsOf(result) + [SystemAlert(|AlertsOf(result)| + 1, now)]
  {
    alerts := [];
    var alertId := 1;
    for i := 0 to |result|
      invariant alerts == AlertsOf(result[..i])
      invariant alertId == |alerts| + 1
    {
      assert result[..i + 1][..i] == result[..i];
      var row := result[i];
      var alertType: Option<AlertType> := None;
      var title := "";
      var message := "";
      if row.estatus == "Muy Baja" {
        alertType := Some(Critical);
        title := row.deviceId + " - Presión Muy Baja";
        message := "El dispositivo ha detectado una presión anormalmente baja";
      } else if row.estatus == "Muy Alta" {
        alertType := Some(Critical);
        title := row.deviceId + " - Presión Muy Alta";
        message := "El dispositivo ha detectado una presión anormalmente alta";
      } else if row.estatus == "Alta" {
        alertType := Some(Warning);
        title := row.deviceId + " - Presión Alta";
        message := "La presión está por encima del rango normal";
      }
      if alertType.Some? {
        alerts := alerts + [Alert(alertId, title, message, alertType.value, row.createdAt)];
        alertId := alertId + 1;
      }
    }
    assert result[..|result|] == result;
    alerts := alerts + [SystemAlert(|alerts| + 1, now)];
  }

  /** The alerts answer: one status alert per selected latest row, in the
      rows' order, numbered 1..k and carrying the row's time, then exactly
      one closing "info" alert numbered k + 1. */
  lemma AlertsAnswer(rows: seq<Row>, now: Timestamp)
    ensures var alerts := AlertsOf(AlertRows(rows)) + [SystemAlert(|AlertsOf(AlertRows(rows))| + 1, now)];
      && |alerts| == |AlertRows(rows)| + 1
      && (forall i :: 0 <= i < |alerts| ==> alerts[i].id == i + 1)
      && (forall i :: 0 <= i < |alerts| ==> (alerts[i].kind == Info <==> i == |alerts| - 1))
      && (forall i :: 0 <= i < |alerts| - 1 ==> alerts[i].time == AlertRows(rows)[i].createdAt)
  {
    AlertRowsAlert(rows);
    AlertList(AlertRows(rows), now);
  }

  /** Every row selected for the alert loop has an alerting status. */
  lemma AlertRowsAlert(rows: seq<Row>)
    ensures forall i :: 0 <= i < |AlertRows(rows)| ==> Alerting(AlertRows(rows)[i])
  {
    var result := AlertRows(rows);
    forall i | 0 <= i < |result| ensures Alerting(result[i]) {
      assert result[i] in result;
    }
  }

  /** For rows that all alert, the answer has one alert per row, numbered
      1..k in row order and carrying the row's time, then the closing "info"
      alert k + 1. */
  lemma AlertList(result: seq<Row>, now: Timestamp)
    requires forall i :: 0 <= i < |result| ==> Alerting(result[i])
    ensures var alerts := AlertsOf(result) + [SystemAlert(|AlertsOf(result)| + 1, now)];
      && |alerts| == |result| + 1
      && (forall i :: 0 <= i < |alerts| ==> alerts[i].id == i + 1)
      && (forall i :: 0 <= i < |alerts| ==> (alerts[i].kind == Info <==> i == |alerts| - 1))
      && (forall i :: 0 <= i < |alerts| - 1 ==> alerts[i].time == result[i].createdAt)
  {
    StatusAlertsNumbered(result);
    var statusAlerts := AlertsOf(result);
    var alerts := statusAlerts + [SystemAlert(|statusAlerts| + 1, now)];
    forall i | 0 <= i < |alerts|
      ensures alerts[i].id == i + 1
      ensures alerts[i].kind == Info <==> i == |alerts| - 1
      ensures i < |alerts| - 1 ==> alerts[i].time == result[i].createdAt
    {
      if i < |statusAlerts| {
        assert alerts[i] == statusAlerts[i];
      }
    }
  }

  /** For rows that all alert, status alert i is numbered i + 1, is not
      "info", and carries row i's time. */
  lemma StatusAlertsNumbered(result: seq<Row>)
    requires forall i :: 0 <= i < |result| ==> Alerting(result[i])
    ensures |AlertsOf(result)| == |result|
    ensures forall i :: 0 <= i < |result| ==>
              AlertsOf(result)[i].id == i + 1 && AlertsOf(result)[i].kind != Info &&
              AlertsOf(result)[i].time == result[i].createdAt
  {
    AlertsMatchRows(result);
    FilterKeepsAll(result, Alerting);
  }

  /** None of the front end's labels other than "Alta" ever raises an
      alert: "Falla Baja" and "Falla Alta" are not "Muy Baja" and "Muy Alta". */
  lemma FrontEndLabelsRarelyAlert(rows: seq<Row>, x: Row)
    requires x in AlertRows(rows) && x.estatus in Device.BandLabels
    ensures x.estatus == "Alta"
  {
  }

  // ----- the endpoint -----

  /** The JSON the endpoint echoes. */
  datatype Answer = Rows(rows: seq<Row>) | Alerts(alerts: seq<Alert>) | Failure(status: int, error: string)

  /** Dispatch on `$_GET['action']` (missing means ""); anything but the
      three known actions is a 400 with an error and no data. */
  method Query(action: string, deviceId: string, table: seq<Row>, now: Timestamp) returns (answer: Answer)
    ensures action == "sensor_data" ==> answer == Rows(SensorData(table, deviceId))
    ensures action == "latest_data" ==> answer == Rows(LatestData(table))
    ensures action == "alerts" ==>
              answer == Alerts(AlertsOf(AlertRows(table)) + [SystemAlert(|AlertsOf(AlertRows(table))| + 1, now)])
    ensures action !in ["sensor_data", "latest_data", "alerts"] ==> answer == Failure(400, "Acción no válida")
  {
    if action == "sensor_data" {
      answer := Rows(SensorData(table, deviceId));
    } else if action == "latest_data" {
      answer := Rows(LatestData(table));
    } else if action == "alerts" {
      var alerts := BuildAlerts(AlertRows(table), now);
      answer := Alerts(alerts);
    } else {
      answer := Failure(400, "Acción no válida");
    }
  }

  /** A reading accepted by the ingestion endpoint is served back: it is the
      latest row of its device, it is among its device's rows, and it is
      selected for an alert when its status is one of AlertStatuses. */
  lemma IngestedReadingIsServed(rows: seq<Row>, nextId: int, s: Ingest.Submission, now: Timestamp)
    requires UniqueIds(rows) && forall i :: 0 <= i < |rows| ==> rows[i].id < nextId
    ensures var row := Ingest.StoredRow(nextId, s, now);
      row in LatestData(rows + [row]) &&
      (!NoFilter(s.deviceId) ==> row in SensorData(rows + [row], s.deviceId)) &&
      (s.estatus in AlertStatuses ==> row in AlertRows(rows + [row]))
  {
    Ingest.StoredRowIsLatest(rows, nextId, s, now);
  }
}
