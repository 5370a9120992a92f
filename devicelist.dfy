/** The dashboard's device list: the latest reading of every device, the
    category filter, and the view state that the hide, show, show-all,
    toggle and category buttons change. */
module DeviceList {
  import opened Util
  import opened Readings

  /** The latest reading of every device: a copy of the readings is sorted
      by id, largest first, and the loop keeps the first reading of each
      device. The `Map` of the source is its key set `seen` together with
      its values in insertion order, `latest`. */
  method LatestDeviceStatus(sensorData: seq<Row>) returns (latest: seq<Row>)
    ensures forall y :: y in latest ==> IsLatest(sensorData, y)
    ensures DevicesOf(latest) == DevicesOf(sensorData)
    ensures forall i, j :: 0 <= i < j < |latest| ==> latest[i].deviceId != latest[j].deviceId
    ensures SortedByIdDesc(latest)
    ensures UniquePerDevice(sensorData) ==> forall x :: IsLatest(sensorData, x) ==> x in latest
  {
    var sorted := new Row[|sensorData|](i requires 0 <= i < |sensorData| => sensorData[i]);
    assert sorted[..] == sensorData;
    SortByIdDescending(sorted);
    var ordered := sorted[..];
    var seen: set<string> := {};
    latest := [];
    for i := 0 to |ordered|
      invariant latest == KeepFirst(ordered[..i])
      invariant seen == DevicesOf(latest)
    {
      var device := ordered[i];
      assert ordered[..i + 1][..i] == ordered[..i];
      if device.deviceId !in seen {
        DevicesOfAppend(latest, device);
        seen := seen + {device.deviceId};
        latest := latest + [device];
      }
    }
    assert ordered[..|ordered|] == ordered;
    KeepFirstIsLatest(ordered);
    KeepFirstDevices(ordered);
    KeepFirstDistinct(ordered);
    KeepFirstSorted(ordered);
    SameReadings(ordered, sensorData, latest);
    if UniquePerDevice(sensorData) {
      LatestRowsComplete(sensorData, latest);
    }
  }

  /** The devices of a list of readings, as a set. */
  function DevicesOf(rows: seq<Row>): set<string> {
    set x | x in rows :: x.deviceId
  }

  lemma DevicesOfAppend(rows: seq<Row>, r: Row)
    ensures DevicesOf(rows + [r]) == DevicesOf(rows) + {r.deviceId}
  {
    assert r in rows + [r];
    forall d | d in DevicesOf(rows) ensures d in DevicesOf(rows + [r]) {
      var x :| x in rows && x.deviceId == d;
      assert x in rows + [r];
    }
  }

  /** The readings, left to right, that are the first of their device. */
  function KeepFirst(rows: seq<Row>): seq<Row> {
    if rows == [] then []
    else
      var kept := KeepFirst(rows[..|rows| - 1]);
      var last := rows[|rows| - 1];
      if last.deviceId in DevicesOf(kept) then kept else kept + [last]
  }

  /** KeepFirst keeps a reading of every device and nothing else. */
  lemma {:induction false} KeepFirstDevices(rows: seq<Row>)
    ensures DevicesOf(KeepFirst(rows)) == DevicesOf(rows)
    ensures forall y :: y in KeepFirst(rows) ==> y in rows
  {
    if rows != [] {
      var init, last := rows[..|rows| - 1], rows[|rows| - 1];
      KeepFirstDevices(init);
      assert rows == init + [last];
      DevicesOfAppend(init, last);
      var kept := KeepFirst(init);
      if last.deviceId !in DevicesOf(kept) {
        DevicesOfAppend(kept, last);
      }
    }
  }

  /** No device is kept twice. */
  lemma {:induction false} KeepFirstDistinct(rows: seq<Row>)
    ensures forall i, j :: 0 <= i < j < |KeepFirst(rows)| ==> KeepFirst(rows)[i].deviceId != KeepFirst(rows)[j].deviceId
  {
    if rows != [] {
      var init, last := rows[..|rows| - 1], rows[|rows| - 1];
      KeepFirstDistinct(init);
      var kept := KeepFirst(init);
      if last.deviceId !in DevicesOf(kept) {
        forall i | 0 <= i < |kept| ensures kept[i].deviceId != last.deviceId {
          assert kept[i] in kept;
        }
      }
    }
  }

  /** On readings sorted by id, largest first, what KeepFirst keeps is
      sorted the same way. */
  lemma {:induction false} KeepFirstSorted(rows: seq<Row>)
    requires SortedByIdDesc(rows)
    ensures SortedByIdDesc(KeepFirst(rows))
  {
    if rows != [] {
      var init, last := rows[..|rows| - 1], rows[|rows| - 1];
      assert SortedByIdDesc(init);
      KeepFirstSorted(init);
      KeepFirstDevices(init);
      var kept := KeepFirst(init);
      forall y | y in kept ensures y.id >= last.id {
        var k :| 0 <= k < |init| && init[k] == y;
      }
    }
  }

  /** On readings sorted by id, largest first, the first reading of a
      device is its latest one. */
  lemma {:induction false} KeepFirstIsLatest(rows: seq<Row>)
    requires SortedByIdDesc(rows)
    ensures forall y :: y in KeepFirst(rows) ==> IsLatest(rows, y)
  {
    if rows != [] {
      var init, last := rows[..|rows| - 1], rows[|rows| - 1];
      assert SortedByIdDesc(init);
      assert rows == init + [last];
      KeepFirstIsLatest(init);
      KeepFirstDevices(init);
      var kept := KeepFirst(init);
      forall y | y in KeepFirst(rows)
        ensures IsLatest(rows, y)
      {
        if y in kept {
          var k :| 0 <= k < |init| && init[k] == y;
          assert last.id <= y.id;
        } else {
          assert y == last && last.deviceId !in DevicesOf(init);
          forall x | x in init ensures x.deviceId != last.deviceId {
            assert x.deviceId in DevicesOf(init);
          }
        }
      }
    }
  }

  /** Sorting changes neither which readings are latest nor the device set. */
  lemma SameReadings(ordered: seq<Row>, sensorData: seq<Row>, latest: seq<Row>)
    requires multiset(ordered) == multiset(sensorData)
    requires forall y :: y in latest ==> IsLatest(ordered, y)
    requires DevicesOf(latest) == DevicesOf(ordered)
    ensures forall y :: y in latest ==> IsLatest(sensorData, y)
    ensures DevicesOf(latest) == DevicesOf(sensorData)
  {
    assert forall x :: x in ordered <==> x in sensorData by {
      forall x ensures x in ordered <==> x in sensorData {
        assert x in ordered <==> x in multiset(ordered);
        assert x in sensorData <==> x in multiset(sensorData);
      }
    }
  }

  /** When no device repeats an id, a list holding a latest reading of
      every device holds every latest reading. */
  lemma LatestRowsComplete(sensorData: seq<Row>, latest: seq<Row>)
    requires forall y :: y in latest ==> IsLatest(sensorData, y)
    requires DevicesOf(sensorData) <= DevicesOf(latest)
    requires UniquePerDevice(sensorData)
    ensures forall x :: IsLatest(sensorData, x) ==> x in latest
  {
    forall x | IsLatest(sensorData, x)
      ensures x in latest
    {
      assert x.deviceId in DevicesOf(sensorData);
      var y :| y in latest && y.deviceId == x.deviceId;
      LatestIsUnique(sensorData, x, y);
    }
  }

  /** The readings the dashboard is loaded with. Times are seconds after
      midnight of 2025-11-11 (16:21:45, 16:22:45, 16:23:45, 16:24:45). */
  const BuiltInReadings: seq<Row> := [
    Row(1, "ESP32_001", "presion", 70.0, "Baja", "automotriz", 58905),
    Row(2, "ESP32_001", "presion", 100.0, "Baja", "automotriz", 58965),
    Row(3, "ESP32_001", "presion", 167.0, "Normal", "automotriz", 59025),
    Row(4, "ESP32_001", "presion", 50.0, "Baja", "automotriz", 59085),
    Row(1, "ESP32_002", "presion", 70.0, "Baja", "domestico", 58905),
    Row(2, "ESP32_002", "presion", 100.0, "Baja", "domestico", 58965),
    Row(3, "ESP32_002", "presion", 167.0, "Normal", "domestico", 59025),
    Row(4, "ESP32_002", "presion", 180.5, "Normal", "domestico", 59085),
    Row(1, "ESP32_003", "presion", 70.0, "Baja", "industrial", 58905),
    Row(2, "ESP32_003", "presion", 100.0, "Baja", "industrial", 58965),
    Row(3, "ESP32_003", "presion", 167.0, "Normal", "industrial", 59025),
    Row(4, "ESP32_003", "presion", 300.7, "Alta", "industrial", 59085),
    Row(1, "ESP32_004", "presion", 70.0, "Baja", "refrigeracion", 58905),
    Row(2, "ESP32_004", "presion", 100.0, "Baja", "refrigeracion", 58965),
    Row(3, "ESP32_004", "presion", 167.0, "Normal", "refrigeracion", 59025),
    Row(4, "ESP32_004", "presion", 15.2, "Falla Baja", "refrigeracion", 59085)
  ]

  /** The built-in readings number each device's readings from 1 to 4, so
      ids repeat across devices while no device repeats one. */
  lemma BuiltInIdsRepeatAcrossDevices()
    ensures !UniqueIds(BuiltInReadings) && UniquePerDevice(BuiltInReadings)
  {
    var rows := BuiltInReadings;
    assert |rows| == 16;
    assert forall i :: 0 <= i < 16 ==>
      rows[i].id == i % 4 + 1 && |rows[i].deviceId| == 9 && rows[i].deviceId[8] == "1234"[i / 4];
    assert rows[0].id == rows[4].id;
    forall i, j | 0 <= i < j < 16 && rows[i].deviceId == rows[j].deviceId
      ensures rows[i].id != rows[j].id
    {
      assert rows[i].deviceId[8] == rows[j].deviceId[8];
      assert i / 4 == j / 4;
    }
  }

  /** A category flag; a category without an entry reads as not hidden. */
  function Flag(flags: map<string, bool>, category: string): (on: bool)
    ensures on ==> category in flags
  {
    category in flags && flags[category]
  }

  /** The flags after `flags[c] = !flags[c]`. */
  function Toggled(flags: map<string, bool>, category: string): (r: map<string, bool>)
    ensures Flag(r, category) != Flag(flags, category)
    ensures forall c :: c != category ==> (c in r <==> c in flags) && (c in flags ==> r[c] == flags[c])
  {
    flags[category := !Flag(flags, category)]
  }

  /** Toggling twice restores the flag as read, and every other entry. */
  lemma ToggleTwice(flags: map<string, bool>, category: string)
    ensures Flag(Toggled(Toggled(flags, category), category), category) == Flag(flags, category)
    ensures category in flags ==> Toggled(Toggled(flags, category), category) == flags
  {
    if category in flags {
      var twice := Toggled(Toggled(flags, category), category);
      assert twice.Keys == flags.Keys;
    }
  }

  /** A reading belongs to the category shown: "todos" shows every category. */
  predicate InCategory(r: Row, category: string) {
    category == "todos" || r.categoria == category
  }

  /** `hiddenDevices` after `hideSingleDevice`: pushed unless already there. */
  function WithHidden(hidden: seq<string>, deviceId: string): (r: seq<string>)
    ensures deviceId in r
    ensures forall d :: d in r <==> d in hidden || d == deviceId
  {
    if deviceId in hidden then hidden else hidden + [deviceId]
  }

  /** Hiding is idempotent, keeps the list free of duplicates, and showing
      a device that was not hidden before undoes it. */
  lemma HideThenShow(hidden: seq<string>, deviceId: string)
    requires NoDuplicates(hidden)
    ensures WithHidden(WithHidden(hidden, deviceId), deviceId) == WithHidden(hidden, deviceId)
    ensures NoDuplicates(WithHidden(hidden, deviceId))
    ensures deviceId !in hidden ==> Without(WithHidden(hidden, deviceId), deviceId) == hidden
  {
    if deviceId !in hidden {
      var after := hidden + [deviceId];
      assert NoDuplicates(after);
      RemoveUniqueOccurrence(after, deviceId, |hidden|);
      assert after[..|hidden|] == hidden;
    }
  }

  /** Some device's latest reading is in `category` and the device is `deviceId`. */
  ghost predicate Shown(sensorData: seq<Row>, category: string, deviceId: string) {
    exists x :: IsLatest(sensorData, x) && x.deviceId == deviceId && InCategory(x, category)
  }

  /** Some row of `rows` in `category` belongs to `deviceId`. */
  predicate ShownAmong(rows: seq<Row>, category: string, deviceId: string) {
    exists x :: x in rows && x.deviceId == deviceId && InCategory(x, category)
  }

  /** A list of latest readings shows a device of a category only when some
      latest reading does; when no device repeats an id and the list holds
      every latest reading, exactly then. */
  lemma LatestListShows(sensorData: seq<Row>, latest: seq<Row>, category: string, deviceId: string)
    requires forall y :: y in latest ==> IsLatest(sensorData, y)
    ensures ShownAmong(latest, category, deviceId) ==> Shown(sensorData, category, deviceId)
    ensures UniquePerDevice(sensorData) && (forall x :: IsLatest(sensorData, x) ==> x in latest) ==>
              (ShownAmong(latest, category, deviceId) <==> Shown(sensorData, category, deviceId))
  {
  }

  /** The state of the dashboard script: the readings it was loaded with,
      the category shown, the devices hidden one by one, and the per-category
      "hide all" flags. */
  class DeviceListView {
    const sensorData: seq<Row>
    var currentCategory: string
    var hiddenDevices: seq<string>
    var categoryHiddenState: map<string, bool>

    /** No device is listed as hidden twice. */
    ghost predicate Valid()
      reads this
    {
      NoDuplicates(hiddenDevices)
    }

    /** The initial state: "automotriz" shown, nothing hidden, every flag off. */
    constructor (data: seq<Row>)
      ensures Valid()
      ensures sensorData == data && currentCategory == "automotriz" && hiddenDevices == []
      ensures categoryHiddenState == map["automotriz" := false, "domestico" := false, "industrial" := false,
                                         "refrigeracion" := false, "todos" := false]
    {
      sensorData := data;
      currentCategory := "automotriz";
      hiddenDevices := [];
      categoryHiddenState := map["automotriz" := false, "domestico" := false, "industrial" := false,
                                 "refrigeracion" := false, "todos" := false];
    }

    /** The cards shown for a category: none while the category's flag is
        on, otherwise one latest reading per device of the category that is
        not hidden one by one, in id-descending order; when no device
        repeats an id, every such latest reading. */
    method FilterDevicesByCategory(category: string) returns (devices: seq<Row>)
      ensures Flag(categoryHiddenState, category) ==> devices == []
      ensures forall x :: x in devices ==>
                IsLatest(sensorData, x) && InCategory(x, category) && x.deviceId !in hiddenDevices
      ensures forall i, j :: 0 <= i < j < |devices| ==> devices[i].deviceId != devices[j].deviceId
      ensures SortedByIdDesc(devices)
      ensures !Flag(categoryHiddenState, category) && UniquePerDevice(sensorData) ==>
                forall x :: IsLatest(sensorData, x) && InCategory(x, category) && x.deviceId !in hiddenDevices ==> x in devices
    {
      var hidden := hiddenDevices;
      if category == "todos" {
        if Flag(categoryHiddenState, "todos") {
          return [];
        }
        var latest := LatestDeviceStatus(sensorData);
        devices := Filter(latest, (d: Row) => d.deviceId !in hidden);
        FilterKeepsPairs(latest, (d: Row) => d.deviceId !in hidden, (a: Row, b: Row) => a.deviceId != b.deviceId);
        FilterKeepsPairs(latest, (d: Row) => d.deviceId !in hidden, (a: Row, b: Row) => a.id >= b.id);
        return;
      }
      if Flag(categoryHiddenState, category) {
        return [];
      }
      var latest := LatestDeviceStatus(sensorData);
      devices := Filter(latest, (d: Row) => d.categoria == category && d.deviceId !in hidden);
      FilterKeepsPairs(latest, (d: Row) => d.categoria == category && d.deviceId !in hidden,
        (a: Row, b: Row) => a.deviceId != b.deviceId);
      FilterKeepsPairs(latest, (d: Row) => d.categoria == category && d.deviceId !in hidden,
        (a: Row, b: Row) => a.id >= b.id);
    }

    /** `hideSingleDevice`. */
    method HideSingleDevice(deviceId: string)
      requires Valid()
      modifies this
      ensures Valid()
      ensures hiddenDevices == WithHidden(old(hiddenDevices), deviceId)
      ensures currentCategory == old(currentCategory) && categoryHiddenState == old(categoryHiddenState)
    {
      HideThenShow(hiddenDevices, deviceId);
      if deviceId !in hiddenDevices {
        hiddenDevices := hiddenDevices + [deviceId];
      }
    }

    /** `showSingleDevice`: the device leaves the list, the others keep
        their order. */
    method ShowSingleDevice(deviceId: string)
      requires Valid()
      modifies this
      ensures Valid()
      ensures hiddenDevices == Without(old(hiddenDevices), deviceId) && deviceId !in hiddenDevices
      ensures currentCategory == old(currentCategory) && categoryHiddenState == old(categoryHiddenState)
    {
      WithoutNoDuplicates(hiddenDevices, deviceId);
      hiddenDevices := Without(hiddenDevices, deviceId);
    }

    /** `showAllDevices`: a device leaves the list only when a latest
        reading of it is in the current category, so hidden devices of other
        categories stay hidden; when no device repeats an id, every device
        whose latest reading is in the category leaves it. */
    method ShowAllDevices()
      requires Valid()
      modifies this
      ensures Valid()
      ensures forall d :: d in hiddenDevices ==> d in old(hiddenDevices)
      ensures forall d :: d in old(hiddenDevices) && !Shown(sensorData, currentCategory, d) ==> d in hiddenDevices
      ensures UniquePerDevice(sensorData) ==>
                forall d :: d in hiddenDevices <==> (d in old(hiddenDevices) && !Shown(sensorData, currentCategory, d))
      ensures currentCategory == old(currentCategory) && categoryHiddenState == old(categoryHiddenState)
    {
      var latest := LatestDeviceStatus(sensorData);
      var category := currentCategory;
      for i := 0 to |latest|
        invariant currentCategory == category && categoryHiddenState == old(categoryHiddenState)
        invariant NoDuplicates(hiddenDevices)
        invariant forall d :: d in hiddenDevices <==> (d in old(hiddenDevices) && !ShownAmong(latest[..i], category, d))
      {
        var device := latest[i];
        assert latest[..i + 1] == latest[..i] + [device];
        if currentCategory == "todos" || device.categoria == currentCategory {
          WithoutNoDuplicates(hiddenDevices, device.deviceId);
          hiddenDevices := Without(hiddenDevices, device.deviceId);
        }
      }
      assert latest[..|latest|] == latest;
      forall d
        ensures ShownAmong(latest, category, d) ==> Shown(sensorData, category, d)
        ensures UniquePerDevice(sensorData) ==> (ShownAmong(latest, category, d) <==> Shown(sensorData, category, d))
      {
        LatestListShows(sensorData, latest, category, d);
      }
    }

    /** `toggleHideAllDevices`: flips the current category's flag and nothing else. */
    method ToggleHideAllDevices()
      requires Valid()
      modifies this
      ensures Valid()
      ensures categoryHiddenState == Toggled(old(categoryHiddenState), currentCategory)
      ensures currentCategory == old(currentCategory) && hiddenDevices == old(hiddenDevices)
    {
      categoryHiddenState := categoryHiddenState[currentCategory := !Flag(categoryHiddenState, currentCategory)];
    }

    /** `setActiveCategory`. */
    method SetActiveCategory(category: string)
      requires Valid()
      modifies this
      ensures Valid()
      ensures currentCategory == category
      ensures hiddenDevices == old(hiddenDevices) && categoryHiddenState == old(categoryHiddenState)
    {
      currentCategory := category;
    }

    /** The rule of `updateAddButton`: disabled when the category's flag is
        on or no device of the current category is hidden one by one; when
        no device repeats an id, exactly then. */
    method AddButtonDisabled() returns (disabled: bool)
      ensures Flag(categoryHiddenState, currentCategory) || !HiddenIn(currentCategory) ==> disabled
      ensures UniquePerDevice(sensorData) ==>
                (disabled <==> (Flag(categoryHiddenState, currentCategory) || !HiddenIn(currentCategory)))
    {
      var hidden := hiddenDevices;
      var category := currentCategory;
      var latest := LatestDeviceStatus(sensorData);
      var hiddenInCategory := Filter(latest, (d: Row) => d.deviceId in hidden && InCategory(d, category));
      if |hiddenInCategory| != 0 {
        assert hiddenInCategory[0] in hiddenInCategory;
      } else if UniquePerDevice(sensorData) {
        forall x | IsLatest(sensorData, x) && InCategory(x, category)
          ensures x.deviceId !in hidden
        {
          assert x in latest;
        }
      }
      disabled := |hiddenInCategory| == 0 || Flag(categoryHiddenState, currentCategory);
    }

    /** Some device whose latest reading is in `category` is hidden one by one. */
    ghost predicate HiddenIn(category: string)
      reads this
    {
      exists x :: IsLatest(sensorData, x) && InCategory(x, category) && x.deviceId in hiddenDevices
    }
  }
}
