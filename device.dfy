/** The device-detail page: the pressure bands behind the gauge, the label
    and category lookups, and the latest reading of one device. */
module Device {
  import opened Util
  import opened Readings

  const FullScale: real := 580.0

  /** The lower bounds of the five bands, in increasing order. */
  const BandFloors: seq<real> := [0.0, 25.0, 150.0, 250.0, 310.0]

  /** The band labels of the front end, from low to high. */
  const BandLabels: seq<string> := ["Falla Baja", "Baja", "Normal", "Alta", "Falla Alta"]

  /** Label shown for a gauge reading: half-open bands [0,25), [25,150),
      [150,250), [250,310), and the closed band [310,580]; anything else,
      negative or above full scale, is "Desconocido". */
  function StatusText(pressure: real): (r: string)
    ensures r in BandLabels || r == "Desconocido"
  {
    if pressure >= 0.0 && pressure < 25.0 then "Falla Baja"
    else if pressure >= 25.0 && pressure < 150.0 then "Baja"
    else if pressure >= 150.0 && pressure < 250.0 then "Normal"
    else if pressure >= 250.0 && pressure < 310.0 then "Alta"
    else if pressure >= 310.0 && pressure <= 580.0 then "Falla Alta"
    else "Desconocido"
  }

  /** CSS class of the status indicator for a gauge reading. Its bands are
      those of StatusText, and out of range it falls back to "status-normal":
      it always agrees with looking the label up in StatusClass. */
  function StatusColor(pressure: real): (r: string)
    ensures r == StatusClass(StatusText(pressure))
  {
    if pressure >= 0.0 && pressure < 25.0 then "status-falla-baja"
    else if pressure >= 25.0 && pressure < 150.0 then "status-baja"
    else if pressure >= 150.0 && pressure < 250.0 then "status-normal"
    else if pressure >= 250.0 && pressure < 310.0 then "status-alta"
    else if pressure >= 310.0 && pressure <= 580.0 then "status-falla-alta"
    else "status-normal"
  }

  /** CSS class for a status label: one of the five front-end labels, or
      "status-normal" for any other label (including the alert vocabulary's
      "Muy Baja" and "Muy Alta"). */
  function StatusClass(estatus: string): (r: string)
    ensures estatus !in BandLabels ==> r == "status-normal"
    ensures r in ["status-falla-baja", "status-baja", "status-normal", "status-alta", "status-falla-alta"]
  {
    if estatus == "Baja" then "status-baja"
    else if estatus == "Normal" then "status-normal"
    else if estatus == "Alta" then "status-alta"
    else if estatus == "Falla Baja" then "status-falla-baja"
    else if estatus == "Falla Alta" then "status-falla-alta"
    else "status-normal"
  }

  /** Display name of a category key; an unknown key is shown as it is. */
  function CategoryName(category: string): (r: string)
    ensures category !in ["automotriz", "domestico", "industrial", "refrigeracion"] ==> r == category
    ensures category == "automotriz" ==> r == "Automotriz"
    ensures category == "domestico" ==> r == "Doméstico"
    ensures category == "industrial" ==> r == "Industrial"
    ensures category == "refrigeracion" ==> r == "Refrigeración"
  {
    if category == "automotriz" then "Automotriz"
    else if category == "domestico" then "Doméstico"
    else if category == "industrial" then "Industrial"
    else if category == "refrigeracion" then "Refrigeración"
    else category
  }

  /** Needle angle in degrees: the pressure's share of full scale, of a full turn. */
  function Rotation(pressure: real): (r: real)
    ensures 0.0 <= pressure <= FullScale ==> 0.0 <= r <= 360.0
  {
    (pressure / FullScale) * 360.0
  }

  lemma RotationScale(p: real, q: real)
    ensures Rotation(0.0) == 0.0 && Rotation(FullScale) == 360.0
    ensures 0.0 <= p <= FullScale ==> 0.0 <= Rotation(p) <= 360.0
    ensures p <= q ==> Rotation(p) <= Rotation(q)
    ensures Rotation(p) / 360.0 == p / FullScale
  {
  }

  /** Number of band floors at or below `p`. */
  function FloorsAtOrBelow(floors: seq<real>, p: real): (k: nat)
    ensures k <= |floors|
  {
    if floors == [] then 0
    else (if floors[0] <= p then 1 else 0) + FloorsAtOrBelow(floors[1..], p)
  }

  /** Position of a label in the low-to-high band order. */
  function Rank(status: string): int {
    if status == "Falla Baja" then 0
    else if status == "Baja" then 1
    else if status == "Normal" then 2
    else if status == "Alta" then 3
    else if status == "Falla Alta" then 4
    else -1
  }

  /** On the gauge's scale, StatusText picks the band whose floor is the
      largest one at or below the pressure: the bands cover [0,580] without
      gap or overlap, and off the scale the label is "Desconocido". */
  lemma StatusTextBands(p: real)
    ensures 0.0 <= p <= FullScale ==>
      1 <= FloorsAtOrBelow(BandFloors, p) && StatusText(p) == BandLabels[FloorsAtOrBelow(BandFloors, p) - 1]
    ensures !(0.0 <= p <= FullScale) <==> StatusText(p) == "Desconocido"
  {
    var one := if 310.0 <= p then 1 else 0;
    assert FloorsAtOrBelow([310.0], p) == one by {
      assert [310.0][1..] == [];
    }
    var two := (if 250.0 <= p then 1 else 0) + one;
    assert FloorsAtOrBelow([250.0, 310.0], p) == two by {
      assert [250.0, 310.0][1..] == [310.0];
    }
    var three := (if 150.0 <= p then 1 else 0) + two;
    assert FloorsAtOrBelow([150.0, 250.0, 310.0], p) == three by {
      assert [150.0, 250.0, 310.0][1..] == [250.0, 310.0];
    }
    var four := (if 25.0 <= p then 1 else 0) + three;
    assert FloorsAtOrBelow([25.0, 150.0, 250.0, 310.0], p) == four by {
      assert [25.0, 150.0, 250.0, 310.0][1..] == [150.0, 250.0, 310.0];
    }
    assert FloorsAtOrBelow(BandFloors, p) == (if 0.0 <= p then 1 else 0) + four by {
      assert BandFloors[1..] == [25.0, 150.0, 250.0, 310.0];
    }
  }

  /** A higher pressure never lands in a lower band. */
  lemma StatusTextMonotone(p: real, q: real)
    requires 0.0 <= p <= q <= FullScale
    ensures 0 <= Rank(StatusText(p)) <= Rank(StatusText(q))
  {
  }

  /** Every band includes its floor and stops short of the next floor; the
      top band includes full scale; off the scale the label is "Desconocido"
      and the indicator falls back to "status-normal". */
  lemma StatusTextBoundaries(k: int, p: real)
    ensures 0 <= k < |BandFloors| ==> StatusText(BandFloors[k]) == BandLabels[k]
    ensures 0 < k < |BandFloors| && BandFloors[k - 1] <= p < BandFloors[k] ==> StatusText(p) == BandLabels[k - 1]
    ensures StatusText(FullScale) == "Falla Alta"
    ensures !(0.0 <= p <= FullScale) ==> StatusText(p) == "Desconocido" && StatusColor(p) == "status-normal"
  {
  }

  /** The latest reading of one device: the device's readings are copied
      out, that copy is sorted by id, largest first, and its first element
      is returned; no reading of the device gives None. */
  method LatestDeviceData(sensorData: seq<Row>, deviceId: string) returns (r: Option<Row>)
    ensures r.None? <==> forall x :: x in sensorData ==> x.deviceId != deviceId
    ensures r.Some? ==> r.value.deviceId == deviceId && IsLatest(sensorData, r.value)
  {
    var readings := Filter(sensorData, (x: Row) => x.deviceId == deviceId);
    if |readings| == 0 {
      forall x | x in sensorData ensures x.deviceId != deviceId {
        assert x.deviceId == deviceId ==> x in readings;
      }
      return None;
    }
    var sorted := new Row[|readings|](i requires 0 <= i < |readings| => readings[i]);
    assert sorted[..] == readings;
    SortByIdDescending(sorted);
    var top := sorted[0];
    assert top in multiset(sorted[..]);
    assert top in readings;
    forall x | x in sensorData && x.deviceId == deviceId
      ensures x.id <= top.id
    {
      assert x in multiset(sorted[..]);
      var k :| 0 <= k < sorted.Length && sorted[k] == x;
      assert k == 0 || sorted[..][0].id >= sorted[..][k].id;
    }
    r := Some(top);
  }
}
