/** The statistics service: paged listing of a device's readings, the
    analysis of one device over a time window, and the roll-up of all of a
    user's devices. Each analysis is a function of the database contents, the
    identifier and the window; nothing is kept between calls. */
module StatsService {
  import opened Schemas
  import opened Reducer
  import opened Repository

  // ---------------------------------------------------------------------
  // Axis values of a list of readings

  /** The values of one axis, reading by reading. */
  function AxisValues(rs: seq<Reading>, a: Axis): (vs: seq<real>)
    ensures |vs| == |rs|
  {
    seq(|rs|, i requires 0 <= i < |rs| => Component(rs[i], a))
  }

  lemma AxisValuesConcat(p: seq<Reading>, q: seq<Reading>, a: Axis)
    ensures AxisValues(p + q, a) == AxisValues(p, a) + AxisValues(q, a)
  {
  }

  /** Reordering the readings reorders their axis values the same way. */
  lemma {:induction false} AxisValuesPermutation(p: seq<Reading>, q: seq<Reading>, a: Axis)
    requires multiset(p) == multiset(q)
    ensures multiset(AxisValues(p, a)) == multiset(AxisValues(q, a))
    decreases |p|
  {
    if p == [] {
      assert |q| == |multiset(q)| == 0;
    } else {
      var p', q' := AxisValuesDropLast(p, q, a);
      AxisValuesPermutation(p', q', a);
    }
  }

  /** Take the last reading of p, and one equal reading of q, out of both. */
  lemma AxisValuesDropLast(p: seq<Reading>, q: seq<Reading>, a: Axis) returns (p': seq<Reading>, q': seq<Reading>)
    requires |p| > 0 && multiset(p) == multiset(q)
    ensures |p'| < |p| && multiset(p') == multiset(q')
    ensures multiset(AxisValues(p, a)) == multiset(AxisValues(p', a)) + multiset{Component(p[|p| - 1], a)}
    ensures multiset(AxisValues(q, a)) == multiset(AxisValues(q', a)) + multiset{Component(p[|p| - 1], a)}
  {
    var x := p[|p| - 1];
    p' := p[..|p| - 1];
    var j := MatchLast(p, q);
    q' := AxisValuesRemove(q, j, a);
    assert p == p' + [x];
    AxisValuesConcat(p', [x], a);
  }

  /** Where a permutation holds the last element of the original. */
  lemma MatchLast<T>(p: seq<T>, q: seq<T>) returns (j: nat)
    requires |p| > 0 && multiset(p) == multiset(q)
    ensures j < |q| && q[j] == p[|p| - 1]
    ensures multiset(p[..|p| - 1]) == multiset(q) - multiset{q[j]}
  {
    assert p == p[..|p| - 1] + [p[|p| - 1]];
    assert p[|p| - 1] in multiset(q);
    j :| 0 <= j < |q| && q[j] == p[|p| - 1];
  }

  /** Taking one reading out of a list takes its axis value out of the values. */
  lemma AxisValuesRemove(q: seq<Reading>, j: nat, a: Axis) returns (q': seq<Reading>)
    requires j < |q|
    ensures multiset(q') == multiset(q) - multiset{q[j]}
    ensures multiset(AxisValues(q, a)) == multiset(AxisValues(q', a)) + multiset{Component(q[j], a)}
  {
    var pre, post := q[..j], q[j + 1..];
    q' := pre + post;
    assert q == pre + [q[j]] + post;
    MultisetSplit(pre, q[j], post);
    var vs, ws := AxisValues(pre, a), AxisValues(post, a);
    AxisValuesConcat(pre + [q[j]], post, a);
    AxisValuesConcat(pre, [q[j]], a);
    AxisValuesConcat(pre, post, a);
    assert AxisValues(q, a) == vs + [Component(q[j], a)] + ws;
    MultisetSplit(vs, Component(q[j], a), ws);
  }

  lemma MultisetSplit<T>(pre: seq<T>, x: T, post: seq<T>)
    ensures multiset(pre + [x] + post) == multiset(pre + post) + multiset{x}
  {
    calc {
      multiset(pre + [x] + post);
      multiset(pre + [x]) + multiset(post);
      multiset(pre) + multiset{x} + multiset(post);
      multiset(pre + post) + multiset{x};
    }
  }

  /** The reducer applied to one axis of a list of readings. */
  function AxisSummary(rs: seq<Reading>, a: Axis): StatsAnalysis
  {
    CalculateStatsAnalysis(AxisValues(rs, a))
  }

  /** The three reducer calls over one list of readings, with the requested
      window echoed back (not the range the data happens to cover). */
  function Summarise(rs: seq<Reading>, w: Window): (c: CompleteStatsAnalysis)
    ensures c.x == AxisSummary(rs, X) && c.y == AxisSummary(rs, Y) && c.z == AxisSummary(rs, Z)
    ensures c.periodStart == w.start && c.periodEnd == w.end
  {
    CompleteStatsAnalysis(AxisSummary(rs, X), AxisSummary(rs, Y), AxisSummary(rs, Z), w.start, w.end)
  }

  lemma SummariseAxis(rs: seq<Reading>, w: Window, a: Axis)
    ensures Summarise(rs, w).Get(a) == AxisSummary(rs, a)
  {
    match a
    case X =>
    case Y =>
    case Z =>
  }

  // ---------------------------------------------------------------------
  // get_device_stats: newest first, then offset and limit

  /** Descending by timestamp. */
  predicate NewestFirst(s: seq<Reading>)
  {
    forall i, j :: 0 <= i < j < |s| ==> s[i].timestamp >= s[j].timestamp
  }

  function InsertByTime(rd: Reading, s: seq<Reading>): (r: seq<Reading>)
    requires NewestFirst(s)
    ensures NewestFirst(r)
    ensures multiset(r) == multiset(s) + multiset{rd}
  {
    if s == [] then [rd]
    else if rd.timestamp >= s[0].timestamp then
      HeadIsNewest(s);
      NewestFirstCons(rd, s);
      [rd] + s
    else
      var rest := InsertByTime(rd, s[1..]);
      InsertBehindNewest(s, rd, rest);
      [s[0]] + rest
  }

  /** Inserting behind the head of a newest-first listing: the head stays in front. */
  lemma InsertBehindNewest(s: seq<Reading>, rd: Reading, rest: seq<Reading>)
    requires NewestFirst(s) && |s| > 0 && rd.timestamp < s[0].timestamp
    requires NewestFirst(rest) && multiset(rest) == multiset(s[1..]) + multiset{rd}
    ensures NewestFirst([s[0]] + rest)
    ensures multiset([s[0]] + rest) == multiset(s) + multiset{rd}
  {
    assert s == [s[0]] + s[1..];
    HeadIsNewest(s);
    NewestFirstCons(s[0], rest);
  }

  /** The head of a newest-first listing is at least as recent as every row. */
  lemma HeadIsNewest(s: seq<Reading>)
    requires NewestFirst(s) && s != []
    ensures forall rd :: rd in multiset(s) ==> rd.timestamp <= s[0].timestamp
  {
    forall rd | rd in multiset(s) ensures rd.timestamp <= s[0].timestamp {
      var k :| 0 <= k < |s| && s[k] == rd;
    }
  }

  lemma NewestFirstCons(h: Reading, rest: seq<Reading>)
    requires NewestFirst(rest)
    requires forall rd :: rd in multiset(rest) ==> rd.timestamp <= h.timestamp
    ensures NewestFirst([h] + rest)
  {
    var r := [h] + rest;
    forall i, j | 0 <= i < j < |r| ensures r[i].timestamp >= r[j].timestamp {
      assert r[j] == rest[j - 1];
      assert rest[j - 1] in multiset(rest);
      if i > 0 { assert r[i] == rest[i - 1]; }
    }
  }

  /** ORDER BY timestamp DESC. Rows with equal timestamps come out in one
      fixed order; the database does not promise any particular one. */
  function OrderNewestFirst(s: seq<Reading>): (r: seq<Reading>)
    ensures NewestFirst(r)
    ensures multiset(r) == multiset(s)
  {
    if s == [] then []
    else
      assert s == [s[0]] + s[1..];
      InsertByTime(s[0], OrderNewestFirst(s[1..]))
  }

  /** OFFSET skip LIMIT limit. */
  function Page(s: seq<Reading>, skip: nat, limit: nat): seq<Reading>
  {
    var from := if skip < |s| then skip else |s|;
    var to := if limit < |s| - from then from + limit else |s|;
    s[from..to]
  }

  /** get_device_stats: an unknown device gives the empty list; otherwise the
      device's in-window readings, newest first, after dropping the first skip
      and keeping at most limit. */
  function GetDeviceStats(db: Db, deviceId: string, w: Window, skip: nat, limit: nat): (r: seq<Reading>)
    ensures (forall d :: d in db.devices ==> d.deviceId != deviceId) ==> r == []
    ensures NewestFirst(r)
    ensures |r| <= limit
    ensures DeviceByDeviceId(db.devices, deviceId).Some? ==>
              var rs := Select(db.stats, DeviceByDeviceId(db.devices, deviceId).value.id, w);
              |r| == (if skip >= |rs| then 0 else if limit < |rs| - skip then limit else |rs| - skip) &&
              multiset(r) <= multiset(rs)
  {
    match DeviceByDeviceId(db.devices, deviceId)
    case None => []
    case Some(device) =>
      var ordered := OrderNewestFirst(Select(db.stats, device.id, w));
      var r := Page(ordered, skip, limit);
      PageOfNewestFirst(ordered, skip, limit);
      r
  }

  lemma PageOfNewestFirst(s: seq<Reading>, skip: nat, limit: nat)
    requires NewestFirst(s)
    ensures NewestFirst(Page(s, skip, limit))
    ensures multiset(Page(s, skip, limit)) <= multiset(s)
  {
    var from := if skip < |s| then skip else |s|;
    var to := if limit < |s| - from then from + limit else |s|;
    assert Page(s, skip, limit) == s[from..to];
    SliceOfNewestFirst(s, from, to);
    SliceSubMultiset(s, from, to);
  }

  lemma SliceSubMultiset<T>(s: seq<T>, from: nat, to: nat)
    requires from <= to <= |s|
    ensures multiset(s[from..to]) <= multiset(s)
  {
    var pre, mid, post := s[..from], s[from..to], s[to..];
    assert s == pre + mid + post;
    calc {
      multiset(s);
      multiset(pre + mid) + multiset(post);
      multiset(pre) + multiset(mid) + multiset(post);
    }
  }

  lemma SliceOfNewestFirst(s: seq<Reading>, from: nat, to: nat)
    requires NewestFirst(s) && from <= to <= |s|
    ensures NewestFirst(s[from..to])
  {
    var t := s[from..to];
    forall i, j | 0 <= i < j < |t| ensures t[i].timestamp >= t[j].timestamp {
      assert t[i] == s[from + i] && t[j] == s[from + j];
    }
  }

  /** Consecutive pages tile the ordered listing: the page at skip of size a
      followed by the page at skip + a of size b is the page at skip of size a + b. */
  lemma PagesTile(db: Db, deviceId: string, w: Window, skip: nat, a: nat, b: nat)
    ensures GetDeviceStats(db, deviceId, w, skip, a) + GetDeviceStats(db, deviceId, w, skip + a, b)
         == GetDeviceStats(db, deviceId, w, skip, a + b)
  {
    match DeviceByDeviceId(db.devices, deviceId)
    case None =>
    case Some(device) =>
      PageTile(OrderNewestFirst(Select(db.stats, device.id, w)), skip, a, b);
  }

  lemma PageTile(s: seq<Reading>, skip: nat, a: nat, b: nat)
    ensures Page(s, skip, a) + Page(s, skip + a, b) == Page(s, skip, a + b)
  {
    var from := if skip < |s| then skip else |s|;
    var mid := if a < |s| - from then from + a else |s|;
    var to := if a + b < |s| - from then from + a + b else |s|;
    assert Page(s, skip, a) == s[from..mid];
    assert Page(s, skip + a, b) == s[mid..to];
    assert Page(s, skip, a + b) == s[from..to];
  }

  /** Any page is a slice of the complete listing: the device's in-window
      readings, newest first, with the first skip rows dropped and at most
      limit rows kept. */
  lemma PageIsSliceOfListing(db: Db, deviceId: string, w: Window, skip: nat, limit: nat)
    ensures DeviceByDeviceId(db.devices, deviceId).Some? ==>
              var rs := Select(db.stats, DeviceByDeviceId(db.devices, deviceId).value.id, w);
              var all := GetDeviceStats(db, deviceId, w, 0, |rs|);
              var from := if skip < |rs| then skip else |rs|;
              var to := if skip + limit < |rs| then skip + limit else |rs|;
              |all| == |rs| && NewestFirst(all) && multiset(all) == multiset(rs) &&
              GetDeviceStats(db, deviceId, w, skip, limit) == all[from..to]
  {
    match DeviceByDeviceId(db.devices, deviceId)
    case None =>
    case Some(device) =>
      var rs := Select(db.stats, device.id, w);
      var ordered := OrderNewestFirst(rs);
      PermutationLength(ordered, rs);
      PageSlices(ordered, skip, limit);
  }

  /** The page of every row is the whole listing; any page is a slice of it. */
  lemma PageSlices(s: seq<Reading>, skip: nat, limit: nat)
    ensures Page(s, 0, |s|) == s
    ensures Page(s, skip, limit)
         == s[(if skip < |s| then skip else |s|)..(if skip + limit < |s| then skip + limit else |s|)]
  {
  }

  lemma PermutationLength<T>(a: seq<T>, b: seq<T>)
    requires multiset(a) == multiset(b)
    ensures |a| == |b|
  {
    assert |a| == |multiset(a)| == |multiset(b)| == |b|;
  }

  /** The first row of the first page is the newest in-window reading. */
  lemma FirstPageStartsNewest(db: Db, deviceId: string, w: Window, limit: nat, rd: Reading)
    requires limit > 0
    requires DeviceByDeviceId(db.devices, deviceId).Some?
    requires rd in db.stats && rd.deviceRef == DeviceByDeviceId(db.devices, deviceId).value.id
    requires InWindow(w, rd.timestamp)
    ensures var r := GetDeviceStats(db, deviceId, w, 0, limit);
            r != [] && rd.timestamp <= r[0].timestamp
  {
    var device := DeviceByDeviceId(db.devices, deviceId).value;
    var s := OrderNewestFirst(Select(db.stats, device.id, w));
    assert rd in multiset(s);
    HeadIsNewest(s);
    assert GetDeviceStats(db, deviceId, w, 0, limit) == s[0..if limit < |s| then limit else |s|];
  }

  // ---------------------------------------------------------------------
  // analyze_device_stats

  /** analyze_device_stats, with the existence check the HTTP layer makes
      before calling it: NotFound for an unknown device, NoData when none of
      its readings lies in the window, otherwise the three axis summaries of
      exactly those readings and the requested window bounds. */
  function AnalyzeDeviceStats(db: Db, deviceId: string, w: Window): (r: Outcome<CompleteStatsAnalysis>)
    ensures r.NotFound? <==> forall d :: d in db.devices ==> d.deviceId != deviceId
    ensures !r.NotFound? ==>
              var device := DeviceByDeviceId(db.devices, deviceId).value;
              (r.NoData? <==> forall rd :: rd in db.stats && rd.deviceRef == device.id ==> !InWindow(w, rd.timestamp))
    ensures r.Ok? ==>
              var rs := Select(db.stats, DeviceByDeviceId(db.devices, deviceId).value.id, w);
              |rs| > 0 && r.value.periodStart == w.start && r.value.periodEnd == w.end &&
              r.value.x.count == |rs| && r.value.y.count == |rs| && r.value.z.count == |rs| &&
              r.value.x == AxisSummary(rs, X) && r.value.y == AxisSummary(rs, Y) && r.value.z == AxisSummary(rs, Z)
  {
    match DeviceByDeviceId(db.devices, deviceId)
    case None => NotFound
    case Some(device) =>
      var stats := Select(db.stats, device.id, w);
      if stats == [] then NoData
      else
        assert stats[0] in stats;
        Ok(Summarise(stats, w))
  }

  // ---------------------------------------------------------------------
  // analyze_user_stats

  /** The in-window readings of the listed devices, device after device. */
  function Pooled(stats: seq<Reading>, devices: seq<Device>, w: Window): seq<Reading>
  {
    if devices == [] then []
    else Pooled(stats, devices[..|devices| - 1], w) + Select(stats, devices[|devices| - 1].id, w)
  }

  /** The per-device analysis of one device. */
  function Entry(stats: seq<Reading>, device: Device, w: Window): DeviceStatsAnalysis
  {
    DeviceStatsAnalysis(device.deviceId, Summarise(Select(stats, device.id, w), w))
  }

  /** One entry per listed device that has an in-window reading, in listing order. */
  function PerDevice(stats: seq<Reading>, devices: seq<Device>, w: Window): seq<DeviceStatsAnalysis>
  {
    if devices == [] then []
    else
      var last := devices[|devices| - 1];
      PerDevice(stats, devices[..|devices| - 1], w)
        + (if Select(stats, last.id, w) == [] then [] else [Entry(stats, last, w)])
  }

  /** What analyze_user_stats computes, with the user-existence check the HTTP
      layer makes first: NotFound for an unknown user, NoData when the user has
      no device or no device has an in-window reading, otherwise the
      aggregate over the pooled readings and the per-device entries. */
  function UserRollup(db: Db, userId: int, w: Window): Outcome<UserStatsAnalysis>
  {
    if userId !in db.users then NotFound
    else
      var devices := DevicesByUserId(db.devices, userId);
      var pooled := Pooled(db.stats, devices, w);
      if devices == [] || pooled == [] then NoData
      else Ok(UserStatsAnalysis(userId, Summarise(pooled, w), PerDevice(db.stats, devices, w)))
  }

  // ---------------------------------------------------------------------
  // What the roll-up promises

  /** Some listed device has this internal id. */
  predicate Listed(devices: seq<Device>, deviceRef: int)
  {
    exists d :: d in devices && d.id == deviceRef
  }

  /** The device with this internal id belongs to the user. */
  predicate OwnedBy(devices: seq<Device>, deviceRef: int, userId: int)
  {
    exists d :: d in devices && d.userId == Some(userId) && d.id == deviceRef
  }

  lemma ListedSnoc(devices: seq<Device>, deviceRef: int)
    requires |devices| > 0
    ensures Listed(devices, deviceRef)
        <==> Listed(devices[..|devices| - 1], deviceRef) || devices[|devices| - 1].id == deviceRef
  {
    var init, last := devices[..|devices| - 1], devices[|devices| - 1];
    assert devices == init + [last];
    if Listed(devices, deviceRef) && last.id != deviceRef {
      var d :| d in devices && d.id == deviceRef;
      assert d in init;
    }
    if Listed(init, deviceRef) {
      var d :| d in init && d.id == deviceRef;
      assert d in devices;
    }
    assert last in devices;
  }

  /** A reading is pooled exactly when it is an in-window reading of a listed device. */
  lemma {:induction false} PooledMembers(stats: seq<Reading>, devices: seq<Device>, w: Window)
    ensures forall rd :: rd in Pooled(stats, devices, w)
                     <==> rd in stats && Listed(devices, rd.deviceRef) && InWindow(w, rd.timestamp)
    decreases |devices|
  {
    if devices != [] {
      var init := devices[..|devices| - 1];
      PooledMembers(stats, init, w);
      forall rd ensures rd in Pooled(stats, devices, w)
                    <==> rd in stats && Listed(devices, rd.deviceRef) && InWindow(w, rd.timestamp) {
        ListedSnoc(devices, rd.deviceRef);
      }
    }
  }

  /** With key-unique devices, every qualifying reading is pooled exactly as
      many times as it is stored, and nothing else is pooled. */
  lemma {:induction false} PooledMultiset(stats: seq<Reading>, devices: seq<Device>, w: Window)
    requires UniqueIds(devices)
    ensures forall rd :: multiset(Pooled(stats, devices, w))[rd] ==
                         if Listed(devices, rd.deviceRef) && InWindow(w, rd.timestamp) then multiset(stats)[rd] else 0
    decreases |devices|
  {
    if devices != [] {
      var init, last := devices[..|devices| - 1], devices[|devices| - 1];
      UniqueIdsPrefix(devices);
      PooledMultiset(stats, init, w);
      forall rd ensures multiset(Pooled(stats, devices, w))[rd] ==
                        if Listed(devices, rd.deviceRef) && InWindow(w, rd.timestamp) then multiset(stats)[rd] else 0 {
        ListedSnoc(devices, rd.deviceRef);
        if Listed(init, rd.deviceRef) {
          var d :| d in init && d.id == rd.deviceRef;
          var k :| 0 <= k < |init| && init[k] == d;
          assert devices[k] == d;
        }
      }
    }
  }

  lemma OwnedMeansListed(devices: seq<Device>, userId: int, deviceRef: int)
    ensures OwnedBy(devices, deviceRef, userId) <==> Listed(DevicesByUserId(devices, userId), deviceRef)
  {
    var mine := DevicesByUserId(devices, userId);
    if OwnedBy(devices, deviceRef, userId) {
      var d :| d in devices && d.userId == Some(userId) && d.id == deviceRef;
      assert d in mine;
    }
    if Listed(mine, deviceRef) {
      var d :| d in mine && d.id == deviceRef;
      assert d in devices;
    }
  }

  /** The three outcomes of the roll-up: NotFound exactly for an unknown user;
      NoData exactly when none of the user's devices has an in-window reading
      (which includes a user without devices); otherwise at least one
      per-device entry, and the requested window echoed. */
  lemma RollupOutcome(db: Db, userId: int, w: Window)
    ensures UserRollup(db, userId, w).NotFound? <==> userId !in db.users
    ensures UserRollup(db, userId, w).NoData? <==>
              userId in db.users &&
              forall rd :: rd in db.stats && OwnedBy(db.devices, rd.deviceRef, userId) ==> !InWindow(w, rd.timestamp)
    ensures UserRollup(db, userId, w).Ok? ==>
              var u := UserRollup(db, userId, w).value;
              u.userId == userId && |u.deviceStats| > 0 &&
              u.aggregateStats.periodStart == w.start && u.aggregateStats.periodEnd == w.end
  {
    var devices := DevicesByUserId(db.devices, userId);
    var pooled := Pooled(db.stats, devices, w);
    PooledMembers(db.stats, devices, w);
    forall rd | rd in db.stats
      ensures OwnedBy(db.devices, rd.deviceRef, userId) <==> Listed(devices, rd.deviceRef)
    {
      OwnedMeansListed(db.devices, userId, rd.deviceRef);
    }
    if pooled != [] {
      assert pooled[0] in pooled;
      PerDeviceNonEmpty(db.stats, devices, w);
    }
  }

  /** Some device contributed readings, so some device has an entry. */
  lemma {:induction false} PerDeviceNonEmpty(stats: seq<Reading>, devices: seq<Device>, w: Window)
    requires Pooled(stats, devices, w) != []
    ensures |PerDevice(stats, devices, w)| > 0
    decreases |devices|
  {
    var init, last := devices[..|devices| - 1], devices[|devices| - 1];
    if Select(stats, last.id, w) == [] {
      assert Pooled(stats, devices, w) == Pooled(stats, init, w) + [];
      PerDeviceNonEmpty(stats, init, w);
    }
  }

  /** The elements of xs whose flag is set, in order. */
  function Filter<E>(xs: seq<E>, keep: seq<bool>): seq<E>
    requires |xs| == |keep|
  {
    if xs == [] then []
    else Filter(xs[..|xs| - 1], keep[..|keep| - 1]) + (if keep[|keep| - 1] then [xs[|xs| - 1]] else [])
  }

  /** idx lists, in increasing order, the positions of the kept elements. */
  ghost predicate IndexesFilter<E>(xs: seq<E>, keep: seq<bool>, kept: seq<E>, idx: seq<nat>)
    requires |xs| == |keep|
  {
    |idx| == |kept| &&
    (forall k :: 0 <= k < |idx| ==> idx[k] < |xs|) &&
    (forall k, l :: 0 <= k < l < |idx| ==> idx[k] < idx[l]) &&
    (forall k :: 0 <= k < |idx| ==> keep[idx[k]] && kept[k] == xs[idx[k]]) &&
    (forall j :: 0 <= j < |xs| && j !in idx ==> !keep[j])
  }

  lemma {:induction false} FilterIndex<E>(xs: seq<E>, keep: seq<bool>) returns (idx: seq<nat>)
    requires |xs| == |keep|
    ensures IndexesFilter(xs, keep, Filter(xs, keep), idx)
    decreases |xs|
  {
    if xs == [] {
      idx := [];
    } else {
      var n := |xs| - 1;
      var idx' := FilterIndex(xs[..n], keep[..n]);
      var kept' := Filter(xs[..n], keep[..n]);
      if keep[n] {
        FilterIndexTake(xs, keep, kept', idx');
        idx := idx' + [n];
      } else {
        FilterIndexSkip(xs, keep, kept', idx');
        idx := idx';
      }
    }
  }

  lemma FilterIndexSkip<E>(xs: seq<E>, keep: seq<bool>, kept: seq<E>, idx: seq<nat>)
    requires |xs| == |keep| && |xs| > 0 && !keep[|xs| - 1]
    requires IndexesFilter(xs[..|xs| - 1], keep[..|xs| - 1], kept, idx)
    ensures IndexesFilter(xs, keep, kept, idx)
  {
    var n := |xs| - 1;
    assert forall k :: 0 <= k < n ==> xs[..n][k] == xs[k] && keep[..n][k] == keep[k];
  }

  lemma FilterIndexTake<E>(xs: seq<E>, keep: seq<bool>, kept: seq<E>, idx: seq<nat>)
    requires |xs| == |keep| && |xs| > 0 && keep[|xs| - 1]
    requires IndexesFilter(xs[..|xs| - 1], keep[..|xs| - 1], kept, idx)
    ensures IndexesFilter(xs, keep, kept + [xs[|xs| - 1]], idx + [|xs| - 1])
  {
    var n := |xs| - 1;
    var i, e := idx + [n], kept + [xs[n]];
    assert forall k :: 0 <= k < n ==> xs[..n][k] == xs[k] && keep[..n][k] == keep[k];
    assert forall k :: 0 <= k < |idx| ==> i[k] == idx[k] && e[k] == kept[k];
  }

  /** Whether each device has an in-window reading. */
  function HasData(stats: seq<Reading>, devices: seq<Device>, w: Window): (r: seq<bool>)
    ensures |r| == |devices|
  {
    seq(|devices|, j requires 0 <= j < |devices| => Select(stats, devices[j].id, w) != [])
  }

  /** The entry each device would get. */
  function Entries(stats: seq<Reading>, devices: seq<Device>, w: Window): (r: seq<DeviceStatsAnalysis>)
    ensures |r| == |devices|
  {
    seq(|devices|, j requires 0 <= j < |devices| => Entry(stats, devices[j], w))
  }

  /** The roll-up's per-device loop keeps exactly the entries of the devices with data. */
  lemma {:induction false} PerDeviceFilters(stats: seq<Reading>, devices: seq<Device>, w: Window)
    ensures PerDevice(stats, devices, w) == Filter(Entries(stats, devices, w), HasData(stats, devices, w))
    decreases |devices|
  {
    if devices != [] {
      var n := |devices| - 1;
      var entries, flags := Entries(stats, devices, w), HasData(stats, devices, w);
      PerDeviceFilters(stats, devices[..n], w);
      EntriesPrefix(stats, devices, w);
      assert Filter(entries, flags)
          == Filter(entries[..n], flags[..n]) + (if flags[n] then [entries[n]] else []);
    }
  }

  lemma EntriesPrefix(stats: seq<Reading>, devices: seq<Device>, w: Window)
    requires |devices| > 0
    ensures Entries(stats, devices, w)[..|devices| - 1] == Entries(stats, devices[..|devices| - 1], w)
    ensures HasData(stats, devices, w)[..|devices| - 1] == HasData(stats, devices[..|devices| - 1], w)
  {
  }

  /** The per-device entries are those of the user's devices that have an
      in-window reading, in listing order: idx[k] is the position, in the
      user's device list, of the device behind entry k, and every device
      left out has no in-window reading. */
  lemma RollupSkipsEmptyDevicesInOrder(db: Db, userId: int, w: Window) returns (idx: seq<nat>)
    ensures UserRollup(db, userId, w).Ok? ==>
              var devices := DevicesByUserId(db.devices, userId);
              IndexesFilter(Entries(db.stats, devices, w), HasData(db.stats, devices, w),
                            UserRollup(db, userId, w).value.deviceStats, idx)
  {
    var devices := DevicesByUserId(db.devices, userId);
    PerDeviceFilters(db.stats, devices, w);
    idx := FilterIndex(Entries(db.stats, devices, w), HasData(db.stats, devices, w));
  }

  /** Sum over the per-device entries of one axis's count. */
  function TotalCount(entries: seq<DeviceStatsAnalysis>, a: Axis): int
  {
    if entries == [] then 0
    else TotalCount(entries[..|entries| - 1], a) + entries[|entries| - 1].stats.Get(a).count
  }

  /** Sum over the per-device entries of one axis's sum. */
  function TotalSum(entries: seq<DeviceStatsAnalysis>, a: Axis): real
  {
    if entries == [] then 0.0
    else TotalSum(entries[..|entries| - 1], a) + entries[|entries| - 1].stats.Get(a).sum
  }

  lemma TotalsSnoc(entries: seq<DeviceStatsAnalysis>, e: DeviceStatsAnalysis, a: Axis)
    ensures TotalCount(entries + [e], a) == TotalCount(entries, a) + e.stats.Get(a).count
    ensures TotalSum(entries + [e], a) == TotalSum(entries, a) + e.stats.Get(a).sum
  {
    assert (entries + [e])[..|entries|] == entries;
  }

  /** A device's entry counts and sums the device's in-window readings. */
  lemma EntryTotals(stats: seq<Reading>, device: Device, w: Window, a: Axis)
    ensures Entry(stats, device, w).stats.Get(a).count == |Select(stats, device.id, w)|
    ensures Entry(stats, device, w).stats.Get(a).sum == Sum(AxisValues(Select(stats, device.id, w), a))
  {
    SummariseAxis(Select(stats, device.id, w), w, a);
  }

  /** One more device adds its in-window readings to the per-device totals. */
  lemma TotalsStep(stats: seq<Reading>, devices: seq<Device>, w: Window, a: Axis)
    requires |devices| > 0
    ensures var n := |devices| - 1;
            var rs := Select(stats, devices[n].id, w);
            TotalCount(PerDevice(stats, devices, w), a) == TotalCount(PerDevice(stats, devices[..n], w), a) + |rs| &&
            TotalSum(PerDevice(stats, devices, w), a) == TotalSum(PerDevice(stats, devices[..n], w), a) + Sum(AxisValues(rs, a))
  {
    var n := |devices| - 1;
    if Select(stats, devices[n].id, w) == [] {
      assert PerDevice(stats, devices, w) == PerDevice(stats, devices[..n], w);
    } else {
      assert PerDevice(stats, devices, w) == PerDevice(stats, devices[..n], w) + [Entry(stats, devices[n], w)];
      TotalsSnoc(PerDevice(stats, devices[..n], w), Entry(stats, devices[n], w), a);
      EntryTotals(stats, devices[n], w, a);
    }
  }

  lemma {:induction false} PerDeviceTotals(stats: seq<Reading>, devices: seq<Device>, w: Window, a: Axis)
    ensures TotalCount(PerDevice(stats, devices, w), a) == |Pooled(stats, devices, w)|
    ensures TotalSum(PerDevice(stats, devices, w), a) == Sum(AxisValues(Pooled(stats, devices, w), a))
    decreases |devices|
  {
    if devices != [] {
      var n := |devices| - 1;
      var rs := Select(stats, devices[n].id, w);
      var before := Pooled(stats, devices[..n], w);
      PerDeviceTotals(stats, devices[..n], w, a);
      TotalsStep(stats, devices, w, a);
      AxisValuesConcat(before, rs, a);
      SumConcat(AxisValues(before, a), AxisValues(rs, a));
    }
  }

  /** The aggregate count and sum of each axis are the totals of the
      per-device counts and sums. */
  lemma RollupCountsAndSumsAdd(db: Db, userId: int, w: Window, a: Axis)
    ensures UserRollup(db, userId, w).Ok? ==>
              var u := UserRollup(db, userId, w).value;
              u.aggregateStats.Get(a).count == TotalCount(u.deviceStats, a) &&
              u.aggregateStats.Get(a).sum == TotalSum(u.deviceStats, a)
  {
    if UserRollup(db, userId, w).Ok? {
      var devices := DevicesByUserId(db.devices, userId);
      PerDeviceTotals(db.stats, devices, w, a);
      SummariseAxis(Pooled(db.stats, devices, w), w, a);
    }
  }

  /** The aggregate of each axis is the reducer applied to the user's
      in-window readings, each taken exactly as often as it is stored, in any
      order: it is computed from raw pooled values, never from the per-device
      summaries. */
  lemma RollupPoolsEachReadingOnce(db: Db, userId: int, w: Window, pool: seq<Reading>, a: Axis)
    requires UniqueIds(db.devices)
    requires forall rd :: multiset(pool)[rd] ==
                          if OwnedBy(db.devices, rd.deviceRef, userId) && InWindow(w, rd.timestamp)
                          then multiset(db.stats)[rd] else 0
    ensures UserRollup(db, userId, w).Ok? ==>
              UserRollup(db, userId, w).value.aggregateStats.Get(a) == AxisSummary(pool, a)
  {
    if UserRollup(db, userId, w).Ok? {
      var devices := DevicesByUserId(db.devices, userId);
      var pooled := Pooled(db.stats, devices, w);
      PooledMultiset(db.stats, devices, w);
      forall rd ensures multiset(pooled)[rd] == multiset(pool)[rd] {
        OwnedMeansListed(db.devices, userId, rd.deviceRef);
      }
      assert multiset(pooled) == multiset(pool);
      AxisValuesPermutation(pooled, pool, a);
      ReduceOrderIndependent(AxisValues(pooled, a), AxisValues(pool, a));
      SummariseAxis(pooled, w, a);
    }
  }

  /** One more device extends the pool by its readings and the per-device
      list by its entry, when it has in-window readings. */
  lemma RollupStep(stats: seq<Reading>, devices: seq<Device>, i: nat, w: Window)
    requires i < |devices|
    ensures Pooled(stats, devices[..i + 1], w) == Pooled(stats, devices[..i], w) + Select(stats, devices[i].id, w)
    ensures PerDevice(stats, devices[..i + 1], w)
         == PerDevice(stats, devices[..i], w)
            + (if Select(stats, devices[i].id, w) == [] then [] else [Entry(stats, devices[i], w)])
  {
    assert devices[..i + 1][..i] == devices[..i];
  }

  /** The three reducer calls written out, as the service makes them, agree with Summarise. */
  lemma SummariseUnfolded(rs: seq<Reading>, w: Window, xs: seq<real>, ys: seq<real>, zs: seq<real>)
    requires xs == AxisValues(rs, X) && ys == AxisValues(rs, Y) && zs == AxisValues(rs, Z)
    ensures Summarise(rs, w)
         == CompleteStatsAnalysis(CalculateStatsAnalysis(xs), CalculateStatsAnalysis(ys), CalculateStatsAnalysis(zs), w.start, w.end)
  {
  }

  /** analyze_user_stats: walk the user's devices in listing order, skip those
      without in-window readings, pool the raw axis values of the others and
      build each one's own analysis, then reduce the pooled values. */
  method AnalyzeUserStats(db: Db, userId: int, w: Window) returns (r: Outcome<UserStatsAnalysis>)
    ensures r == UserRollup(db, userId, w)
  {
    if userId !in db.users {
      return NotFound;
    }
    var devices := DevicesByUserId(db.devices, userId);
    if devices == [] {
      return NoData;
    }

    var allX: seq<real> := [];
    var allY: seq<real> := [];
    var allZ: seq<real> := [];
    var deviceAnalyses: seq<DeviceStatsAnalysis> := [];
    ghost var pooled: seq<Reading> := [];

    for i := 0 to |devices|
      invariant pooled == Pooled(db.stats, devices[..i], w)
      invariant allX == AxisValues(pooled, X)
      invariant allY == AxisValues(pooled, Y)
      invariant allZ == AxisValues(pooled, Z)
      invariant deviceAnalyses == PerDevice(db.stats, devices[..i], w)
    {
      var device := devices[i];
      RollupStep(db.stats, devices, i, w);
      var deviceStats := Select(db.stats, device.id, w);
      if deviceStats == [] {
        assert pooled + deviceStats == pooled;
        continue;
      }

      var deviceX := AxisValues(deviceStats, X);
      var deviceY := AxisValues(deviceStats, Y);
      var deviceZ := AxisValues(deviceStats, Z);

      AxisValuesConcat(pooled, deviceStats, X);
      AxisValuesConcat(pooled, deviceStats, Y);
      AxisValuesConcat(pooled, deviceStats, Z);
      allX := allX + deviceX;
      allY := allY + deviceY;
      allZ := allZ + deviceZ;
      pooled := pooled + deviceStats;

      var deviceXAnalysis := CalculateStatsAnalysis(deviceX);
      var deviceYAnalysis := CalculateStatsAnalysis(deviceY);
      var deviceZAnalysis := CalculateStatsAnalysis(deviceZ);
      var deviceAnalysis := DeviceStatsAnalysis(
        device.deviceId,
        CompleteStatsAnalysis(deviceXAnalysis, deviceYAnalysis, deviceZAnalysis, w.start, w.end));
      SummariseUnfolded(deviceStats, w, deviceX, deviceY, deviceZ);
      deviceAnalyses := deviceAnalyses + [deviceAnalysis];
    }
    assert devices[..|devices|] == devices;

    if allX == [] {
      return NoData;
    }

    var aggregateX := CalculateStatsAnalysis(allX);
    var aggregateY := CalculateStatsAnalysis(allY);
    var aggregateZ := CalculateStatsAnalysis(allZ);
    SummariseUnfolded(pooled, w, allX, allY, allZ);
    r := Ok(UserStatsAnalysis(
      userId,
      CompleteStatsAnalysis(aggregateX, aggregateY, aggregateZ, w.start, w.end),
      deviceAnalyses));
  }
}
