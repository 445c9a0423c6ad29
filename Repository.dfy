/** An in-memory stand-in for the database the service queries: the users
    table, the devices table and the stats (readings) table, with the three
    queries the statistics service issues against them. */
module Repository {
  import opened Schemas

  /** A registered device: internal primary key, external string id, owner. */
  datatype Device = Device(id: int, deviceId: string, userId: Option<int>)

  /** Tables are kept in storage order, which is the order queries return rows in. */
  datatype Db = Db(users: set<int>, devices: seq<Device>, stats: seq<Reading>)

  /** The devices table's primary key: no two rows share an internal id. */
  predicate UniqueIds(devices: seq<Device>)
  {
    forall i, j :: 0 <= i < j < |devices| ==> devices[i].id != devices[j].id
  }

  /** DeviceService.get_device_by_device_id: the first device with that external id. */
  function DeviceByDeviceId(devices: seq<Device>, deviceId: string): (r: Option<Device>)
    ensures r.None? <==> forall d :: d in devices ==> d.deviceId != deviceId
    ensures r.Some? ==> r.value in devices && r.value.deviceId == deviceId
  {
    if devices == [] then None
    else if devices[0].deviceId == deviceId then Some(devices[0])
    else
      assert devices == [devices[0]] + devices[1..];
      DeviceByDeviceId(devices[1..], deviceId)
  }

  /** DeviceService.get_devices_by_user_id: the user's devices in table order. */
  function DevicesByUserId(devices: seq<Device>, userId: int): (r: seq<Device>)
    ensures forall d :: d in r <==> d in devices && d.userId == Some(userId)
    ensures UniqueIds(devices) ==> UniqueIds(r)
  {
    if devices == [] then []
    else
      var init, last := devices[..|devices| - 1], devices[|devices| - 1];
      assert devices == init + [last];
      var r' := DevicesByUserId(init, userId);
      if last.userId == Some(userId) then
        assert UniqueIds(devices) ==> UniqueIds(r' + [last]) by {
          if UniqueIds(devices) {
            UniqueIdsPrefix(devices);
            LastIdFresh(devices, r');
          }
        }
        r' + [last]
      else
        assert UniqueIds(devices) ==> UniqueIds(init) by {
          if UniqueIds(devices) { UniqueIdsPrefix(devices); }
        }
        r'
  }

  lemma UniqueIdsPrefix(devices: seq<Device>)
    requires |devices| > 0 && UniqueIds(devices)
    ensures UniqueIds(devices[..|devices| - 1])
  {
  }

  /** Appending the last device of a key-unique table to rows drawn from the rest keeps ids unique. */
  lemma LastIdFresh(devices: seq<Device>, rows: seq<Device>)
    requires |devices| > 0 && UniqueIds(devices) && UniqueIds(rows)
    requires forall d :: d in rows ==> d in devices[..|devices| - 1]
    ensures UniqueIds(rows + [devices[|devices| - 1]])
  {
    var last := devices[|devices| - 1];
    var r := rows + [last];
    forall i, j | 0 <= i < j < |r| ensures r[i].id != r[j].id {
      if j == |rows| {
        assert r[i] == rows[i] && rows[i] in rows;
        assert r[i] in devices[..|devices| - 1];
        var k :| 0 <= k < |devices| - 1 && devices[k] == r[i];
      } else {
        assert r[i] == rows[i] && r[j] == rows[j];
      }
    }
  }

  /** The window test of the stats queries: timestamp >= start when a start
      is given, timestamp <= end when an end is given. */
  predicate InWindow(w: Window, t: int)
  {
    (w.start.None? || w.start.value <= t) && (w.end.None? || t <= w.end.value)
  }

  /** The stats rows of one device inside the window, in table order. */
  function Select(rows: seq<Reading>, deviceRef: int, w: Window): (r: seq<Reading>)
    ensures forall rd :: rd in r <==> rd in rows && rd.deviceRef == deviceRef && InWindow(w, rd.timestamp)
    ensures forall rd :: multiset(r)[rd] ==
                         if rd.deviceRef == deviceRef && InWindow(w, rd.timestamp) then multiset(rows)[rd] else 0
  {
    if rows == [] then []
    else
      var init, last := rows[..|rows| - 1], rows[|rows| - 1];
      assert rows == init + [last];
      Select(init, deviceRef, w) + (if last.deviceRef == deviceRef && InWindow(w, last.timestamp) then [last] else [])
  }

  /** A window whose start lies after its end selects nothing. */
  lemma InvertedWindowSelectsNothing(rows: seq<Reading>, deviceRef: int, w: Window)
    requires w.start.Some? && w.end.Some? && w.start.value > w.end.value
    ensures Select(rows, deviceRef, w) == []
  {
  }
}
