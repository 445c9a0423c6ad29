# Statistics service: a verified model

This project models the statistics engine of a small sensor-data service.
Devices belong to users and store readings. Each reading has an x, y and z
value and a timestamp. The service answers four kinds of question.

- **Listing.** It lists a device's readings inside an optional time window,
  newest first, after an offset and up to a limit.
- **Reducer.** It reduces a list of values to minimum, maximum, count, sum
  and median. An empty list gives an all-zero sentinel.
- **Device analysis.** It reduces each axis of one device's in-window
  readings.
- **User roll-up.** It walks a user's devices in listing order and skips
  devices without in-window readings. It pools the raw values of the other
  devices and reduces the pooled values. It also keeps one analysis per
  contributing device.

The model has four modules:

- `Schemas`: the value types (reading, window, per-axis summary, device and
  user analyses) and the three-way outcome `NotFound | NoData | Ok`.
- `Reducer`: the per-axis reducer, with the median defined mathematically as
  the middle of the sorted values.
- `Repository`: an in-memory database. It holds the users, the devices in
  table order and the readings in table order. It provides the device
  lookups and the window query.
- `StatsService`: the paged listing, the device analysis and the user
  roll-up.

The roll-up is an imperative method. Its loop extends three pooled value
lists and the list of per-device analyses. It is proved equal to the
functional specification `UserRollup`, and the lemmas below state what that
specification guarantees.

The service returns `None` both for an identifier that does not resolve and
for "no readings in the window". The HTTP layer tells the two apart by
checking existence first (app/routers/stats.py:63-65 and 93-95). The model
folds that check into the result as `NotFound`, and uses `NoData` for the
service's `None`.

A user without devices gets `NoData` here. The service returns `None` for
such a user (app/services/stats_service.py:98-100), and the HTTP layer then
answers "no statistics found".

## Model

| member | source | states |
|---|---|---|
| Reducer.CalculateStatsAnalysis | app/services/stats_service.py:162-179 | Empty input gives exactly the sentinel min = max = sum = median = 0 with count 0. Otherwise count is the number of values and sum is their left-to-right total. Min and max are members of the list and bound every value. The median is the middle of every sorted arrangement of the values and lies between min and max. |
| Reducer.Median | app/services/stats_service.py:178 | For every sorted permutation of the values, the median is the middle element (odd count) or the mean of the two central elements (even count). It lies between the minimum and the maximum. |
| Reducer.Min | app/services/stats_service.py:174 | The minimum is one of the values and is at most every value. |
| Reducer.Max | app/services/stats_service.py:175 | The maximum is one of the values and is at least every value. |
| Reducer.SumPermutation | app/services/stats_service.py:177 | The sum of a list of values does not depend on their order. |
| Reducer.SortedPermutationUnique | app/services/stats_service.py:178 | A multiset of values has exactly one sorted arrangement, so the median does not depend on how the values are sorted. |
| Reducer.ReduceOrderIndependent | app/services/stats_service.py:163-179 | Two lists holding the same values with the same multiplicities reduce to the same summary. |
| Reducer.MedianOfSorted | app/services/stats_service.py:178 | On an already sorted list, the median is read directly off the middle. |
| Reducer.PooledMedianExample | app/services/stats_service.py:146-148 | Pooling [1, 2, 3] with [10] gives median 2.5 over count 4. That is not the mean of the two per-list medians, so the aggregate must be computed from raw values. |
| Repository.DeviceByDeviceId | app/services/device_service.py:17-19 | No device is found exactly when no device carries that external id. A found device is in the table and carries that id. |
| Repository.DevicesByUserId | app/services/device_service.py:21-23 | The result holds exactly the devices owned by the user. Distinct primary keys stay distinct. |
| Repository.Select | app/services/stats_service.py:65-69 | A reading is kept exactly when it belongs to the device and lies in the window: `start <= t` if a start is given and `t <= end` if an end is given, both inclusive. Each kept reading appears as often as it is stored. |
| Repository.InvertedWindowSelectsNothing | app/services/stats_service.py:47-50 | A window whose start lies after its end selects nothing. |
| StatsService.OrderNewestFirst | app/services/stats_service.py:52 | The ordered listing is non-increasing in timestamp and is a permutation of its input. |
| StatsService.GetDeviceStats | app/services/stats_service.py:41-52 | An unknown device gives the empty list. Otherwise the result is newest first, has at most `limit` rows and is drawn from the device's in-window readings. Its length is `min(limit, max(0, n - skip))` for `n` in-window readings. |
| StatsService.PageIsSliceOfListing | app/services/stats_service.py:41-52 | For a known device with `n` in-window readings, the listing with offset 0 and limit `n` is all of them, newest first. Every page (offset `skip`, limit `limit`) is the slice of that listing from `min(skip, n)` to `min(skip + limit, n)`: the first `skip` newest rows are dropped and at most `limit` are kept. |
| StatsService.PagesTile | app/services/stats_service.py:52 | The page at `skip` of size `a`, followed by the page at `skip + a` of size `b`, is the page at `skip` of size `a + b`. |
| StatsService.FirstPageStartsNewest | app/services/stats_service.py:52 | With a positive limit and some in-window reading, the first page is not empty and its first row is at least as recent as every in-window reading of the device. |
| StatsService.AnalyzeDeviceStats | app/services/stats_service.py:54-89 | `NotFound` exactly when no device has the id. `NoData` exactly when the device has no reading in the window. Otherwise there is at least one in-window reading, and each axis count equals the number of in-window readings. Each axis is the reducer over exactly those readings, and the period echoes the requested window. |
| StatsService.AnalyzeUserStats | app/services/stats_service.py:91-160 | The loop over the user's devices computes exactly `UserRollup`. Its invariants tie the pooled value lists to the in-window readings of the devices processed so far, and the per-device list to those devices' entries. |
| StatsService.RollupOutcome | app/services/stats_service.py:98-144 | `NotFound` exactly for an unknown user. `NoData` exactly when no reading of any of the user's devices lies in the window, which includes a user with no devices. Otherwise there is at least one per-device entry, and the user id and requested window are echoed. |
| StatsService.PooledMembers | app/services/stats_service.py:108-125 | A reading is pooled exactly when it is stored, belongs to one of the listed devices and lies in the window. |
| StatsService.PooledMultiset | app/services/stats_service.py:108-125 | When device ids are distinct, every qualifying reading is pooled exactly as many times as it is stored, and no other reading is pooled. |
| StatsService.RollupSkipsEmptyDevicesInOrder | app/services/stats_service.py:108-141 | The per-device entries are the entries of the user's devices that have in-window readings, in device listing order. Each device that is left out has no in-window reading. |
| StatsService.PerDeviceFilters | app/services/stats_service.py:108-141 | The per-device list is the listing-order filter of all device entries by "has an in-window reading". |
| StatsService.FilterIndex | app/services/stats_service.py:115-117 | Filtering keeps the flagged elements in their original order, at increasing positions, and drops exactly the unflagged ones. |
| StatsService.RollupCountsAndSumsAdd | app/services/stats_service.py:123-148 | On every axis, the aggregate count is the total of the per-device counts and the aggregate sum is the total of the per-device sums. |
| StatsService.PerDeviceTotals | app/services/stats_service.py:123-148 | The per-device counts add up to the number of pooled readings. The per-device sums add up to the sum of the pooled axis values. |
| StatsService.RollupPoolsEachReadingOnce | app/services/stats_service.py:108-148 | With distinct device ids, each aggregate axis equals the reducer applied to any arrangement of the user's in-window readings, each taken as often as it is stored. In particular, the aggregate median is the median of the pooled raw values. |
| StatsService.AxisValuesPermutation | app/services/stats_service.py:119-125 | Reordering readings reorders their axis values the same way. |

## Left out

- Storing a reading (`create_device_stats`) is not modelled. It stamps the row with the wall clock and writes through the session, which is I/O plus a clock.
- The SQL session, query building, commit and refresh are not modelled. Tables are sequences in storage order, and a query returns rows in that order.
- The HTTP routers are not modelled. Only the existence checks they make before calling the service (app/routers/stats.py:63-65, 93-95) appear, as `NotFound`. The router's bounds on `skip` and `limit` (app/routers/stats.py:37-38) appear only as `nat` parameters.
- Readings carry no row id. Two stored rows with equal fields are two equal elements of the readings sequence, and they are counted twice.
- Floating point is not modelled. Values are mathematical reals, so rounding in `sum` and `median` and the order of summation are not captured.
- Timestamps are integers. Python's test `if start_time:` is true for every datetime, so the model reads it as "a bound is given".
- `StatsService.OrderNewestFirst`: the database promises no order among rows with equal timestamps. The model fixes one such order; its ordering and permutation properties hold for every newest-first arrangement, but which tied row sits where is the model's choice.
- `StatsService.PagesTile`: this assumes every query breaks timestamp ties the same way. The database makes no such promise when the offset or limit changes, so with equal timestamps two consecutive pages of the real service may repeat or skip a row.
- `StatsService.PageIsSliceOfListing`: this rests on the same assumption, that every query orders tied rows the same way.
- `StatsService.RollupPoolsEachReadingOnce`: this is stated for a devices table whose primary keys are distinct, as the database guarantees. The model does not impose that on every `Db` value.
- Repeated calls give the same answer because every analysis is a function of the database contents. The model has no separate statement of idempotence.
