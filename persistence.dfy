/** `storeDatabase` of index.js, as its effect on three in-memory tables: the
    device is looked up by serial and created when absent, its statistics are
    overwritten, a datapoint row is appended, and a state row is added unless
    the device's latest state row already carries the same state and alarm.
    The connection, the SQL text and its escaping are not modelled; which of
    the two statements that can reject (the device lookup and the device
    insert) fail is a parameter. */
module Persistence {
  import opened Wrappers
  import opened Buffer
  import opened Pluggit

  /** A row of `devices`; the statistics are NULL until the first update. */
  datatype DeviceRow = DeviceRow(
    id: nat, serial: int, name: seq<Byte>,
    filterReset: Option<nat>, workTime: Option<nat>, version: Option<string>)

  /** A row of `datapoints`, with the twelve values `insertDataRow` writes. */
  datatype DataRow = DataRow(
    device: nat, timestamp: nat,
    t1: int, t2: int, t3: int, t4: int, t5: int,
    fan1: int, fan2: int, humidity: nat, bypassState: string, speed: nat)

  /** A row of `states`. */
  datatype StateRow = StateRow(device: nat, timestamp: nat, state: string, alarm: string)

  /** The three tables, with the next value of the `devices` auto-increment id. */
  datatype Tables = Tables(devices: seq<DeviceRow>, nextId: nat, datapoints: seq<DataRow>, states: seq<StateRow>)

  /** Which of the statements whose errors the code handles fail on this call. */
  datatype Faults = Faults(selectFails: bool, insertFails: bool)

  /** The rejection of `findDeviceId`. */
  datatype DbError = SelectFailed(serial: int) | InsertFailed(serial: int)

  /** Some row of `devices` carries this id. */
  predicate Known(devices: seq<DeviceRow>, id: nat) {
    exists k :: 0 <= k < |devices| && devices[k].id == id
  }

  /** Ids are below the auto-increment counter and distinct, a serial names at
      most one device, and every datapoint and state row refers to a device. */
  ghost predicate Valid(t: Tables) {
    && (forall k :: 0 <= k < |t.devices| ==> t.devices[k].id < t.nextId)
    && (forall j, k :: 0 <= j < k < |t.devices| ==> t.devices[j].id != t.devices[k].id)
    && (forall j, k :: 0 <= j < k < |t.devices| ==> t.devices[j].serial != t.devices[k].serial)
    && (forall k :: 0 <= k < |t.datapoints| ==> Known(t.devices, t.datapoints[k].device))
    && (forall k :: 0 <= k < |t.states| ==> Known(t.devices, t.states[k].device))
  }

  /** `SELECT id FROM devices WHERE serial = ?`, first row: the id of the first
      device row with this serial, or None when there is none. */
  function FindDevice(devices: seq<DeviceRow>, serial: int): (r: Option<nat>)
    ensures r.None? <==> forall k :: 0 <= k < |devices| ==> devices[k].serial != serial
    ensures r.Some? ==> exists k :: 0 <= k < |devices| && devices[k].serial == serial && devices[k].id == r.value
                                    && forall j :: 0 <= j < k ==> devices[j].serial != serial
  {
    if |devices| == 0 then None
    else if devices[0].serial == serial then Some(devices[0].id)
    else
      var r := FindDevice(devices[1..], serial);
      assert forall k :: 1 <= k < |devices| ==> devices[k] == devices[1..][k - 1];
      if r.Some? then
        ghost var k :| 0 <= k < |devices| - 1 && devices[1..][k].serial == serial && devices[1..][k].id == r.value
                    && forall j :: 0 <= j < k ==> devices[1..][j].serial != serial;
        assert devices[k + 1].serial == serial && devices[k + 1].id == r.value;
        assert forall j :: 1 <= j < k + 1 ==> devices[j].serial != serial;
        r
      else r
  }

  /** A row appended at the end is found only when no earlier row has its serial. */
  lemma {:induction false} FindDeviceAppend(devices: seq<DeviceRow>, row: DeviceRow, serial: int)
    ensures FindDevice(devices + [row], serial) ==
            if FindDevice(devices, serial).Some? then FindDevice(devices, serial)
            else if row.serial == serial then Some(row.id) else None
  {
    if |devices| > 0 {
      assert (devices + [row])[1..] == devices[1..] + [row];
      FindDeviceAppend(devices[1..], row, serial);
    }
  }

  /** `findDeviceId` with its result: the tables afterwards and the id. */
  datatype Resolved = Resolved(tables: Tables, id: nat)

  /** `findDeviceId`: the id of the device with this serial, inserting the
      row `(serial, name)` first when there is none. */
  function Resolve(t: Tables, serial: int, name: seq<Byte>, faults: Faults): (r: Result<Resolved, DbError>)
    ensures r.Failure? <==> faults.selectFails || (FindDevice(t.devices, serial).None? && faults.insertFails)
    ensures r.Success? ==> FindDevice(r.value.tables.devices, serial) == Some(r.value.id)
    ensures r.Success? ==> r.value.tables.datapoints == t.datapoints && r.value.tables.states == t.states
  {
    FindDeviceAppend(t.devices, DeviceRow(t.nextId, serial, name, None, None, None), serial);
    if faults.selectFails then Failure(SelectFailed(serial))
    else match FindDevice(t.devices, serial)
      case Some(id) => Success(Resolved(t, id))
      case None =>
        if faults.insertFails then Failure(InsertFailed(serial))
        else Success(Resolved(t.(devices := t.devices + [DeviceRow(t.nextId, serial, name, None, None, None)],
                                 nextId := t.nextId + 1), t.nextId))
  }

  /** An existing serial gives back its device's id and inserts nothing. */
  lemma ResolveExisting(t: Tables, serial: int, name: seq<Byte>, faults: Faults)
    requires !faults.selectFails
    requires exists k :: 0 <= k < |t.devices| && t.devices[k].serial == serial
    ensures var r := Resolve(t, serial, name, faults);
      && r.Success? && r.value.tables == t
      && exists k :: 0 <= k < |t.devices| && t.devices[k].serial == serial && t.devices[k].id == r.value.id
  {
  }

  /** An unknown serial inserts exactly one device row, `(serial, name)` with
      the next id, and that id is the result. */
  lemma ResolveNew(t: Tables, serial: int, name: seq<Byte>, faults: Faults)
    requires !faults.selectFails && !faults.insertFails
    requires forall k :: 0 <= k < |t.devices| ==> t.devices[k].serial != serial
    ensures var r := Resolve(t, serial, name, faults);
      && r.Success? && r.value.id == t.nextId
      && r.value.tables.devices == t.devices + [DeviceRow(t.nextId, serial, name, None, None, None)]
      && r.value.tables.datapoints == t.datapoints && r.value.tables.states == t.states
      && FindDevice(r.value.tables.devices, serial) == Some(r.value.id)
  {
    FindDeviceAppend(t.devices, DeviceRow(t.nextId, serial, name, None, None, None), serial);
  }

  /** Resolving a serial a second time finds the same device and changes
      nothing: no serial ever gets a second row. */
  lemma ResolveIdempotent(t: Tables, serial: int, name: seq<Byte>, name2: seq<Byte>, faults: Faults, faults2: Faults)
    requires Resolve(t, serial, name, faults).Success? && !faults2.selectFails
    ensures var first := Resolve(t, serial, name, faults).value;
            Resolve(first.tables, serial, name2, faults2) == Success(first)
  {
    if FindDevice(t.devices, serial).None? {
      FindDeviceAppend(t.devices, DeviceRow(t.nextId, serial, name, None, None, None), serial);
    }
  }

  /** `updateDeviceStats`: the device row with this id gets the sample's name,
      filter time, work time and version; no other row changes. */
  function WithStats(devices: seq<DeviceRow>, id: nat, dp: Sample): (r: seq<DeviceRow>)
    ensures |r| == |devices|
    ensures forall k :: 0 <= k < |r| ==> r[k].id == devices[k].id && r[k].serial == devices[k].serial
    ensures forall k :: 0 <= k < |r| && devices[k].id != id ==> r[k] == devices[k]
    ensures forall k :: 0 <= k < |r| && devices[k].id == id ==>
              r[k].name == dp.name && r[k].filterReset == Some(dp.filterReset)
              && r[k].workTime == Some(dp.workTime) && r[k].version == Some(dp.version)
  {
    seq(|devices|, k requires 0 <= k < |devices| =>
      if devices[k].id == id
      then devices[k].(name := dp.name, filterReset := Some(dp.filterReset),
                       workTime := Some(dp.workTime), version := Some(dp.version))
      else devices[k])
  }

  /** The row `insertDataRow` appends. */
  function DataPoint(id: nat, dp: Sample): (r: DataRow)
    ensures r.device == id && r.timestamp == dp.timestamp
    ensures [r.t1, r.t2, r.t3, r.t4, r.t5, r.fan1, r.fan2] == [dp.t1, dp.t2, dp.t3, dp.t4, dp.t5, dp.fan1, dp.fan2]
    ensures r.humidity == dp.humidity && r.bypassState == dp.bypassState && r.speed == dp.speed
  {
    DataRow(id, dp.timestamp, dp.t1, dp.t2, dp.t3, dp.t4, dp.t5, dp.fan1, dp.fan2, dp.humidity, dp.bypassState, dp.speed)
  }

  /** `SELECT timestamp FROM states WHERE device = ? ORDER BY timestamp DESC
      LIMIT 1`: the largest timestamp among the device's state rows, or None
      (SQL NULL) when it has none. */
  function LatestTimestamp(states: seq<StateRow>, device: nat): (r: Option<nat>)
    ensures r.None? <==> forall k :: 0 <= k < |states| ==> states[k].device != device
    ensures r.Some? ==> exists k :: 0 <= k < |states| && states[k].device == device && states[k].timestamp == r.value
    ensures r.Some? ==> forall k :: 0 <= k < |states| && states[k].device == device ==> states[k].timestamp <= r.value
  {
    if |states| == 0 then None
    else
      var prefix := states[..|states| - 1];
      var last := states[|states| - 1];
      var rest := LatestTimestamp(prefix, device);
      assert forall k :: 0 <= k < |states| - 1 ==> states[k] == prefix[k];
      if last.device != device then rest
      else if rest.Some? && rest.value >= last.timestamp then rest
      else Some(last.timestamp)
  }

  /** The `NOT EXISTS` subquery of `updateState`: a row of the device at its
      latest timestamp carries this state and alarm. */
  predicate AtLatest(states: seq<StateRow>, device: nat, state: string, alarm: string): (b: bool)
    ensures b ==> LatestTimestamp(states, device).Some?
  {
    exists k :: 0 <= k < |states| && states[k].device == device
      && Some(states[k].timestamp) == LatestTimestamp(states, device)
      && states[k].state == state && states[k].alarm == alarm
  }

  /** `updateState`: the conditional insert of `(device, timestamp, state, alarm)`. */
  function UpdateStateRows(states: seq<StateRow>, device: nat, timestamp: nat, state: string, alarm: string): (r: seq<StateRow>)
    ensures r == states <==> AtLatest(states, device, state, alarm)
    ensures r != states ==> r == states + [StateRow(device, timestamp, state, alarm)]
  {
    if AtLatest(states, device, state, alarm) then states
    else states + [StateRow(device, timestamp, state, alarm)]
  }

  /** No state row of the device is later than `timestamp`. */
  predicate NotBefore(states: seq<StateRow>, device: nat, timestamp: nat) {
    forall k :: 0 <= k < |states| && states[k].device == device ==> states[k].timestamp <= timestamp
  }

  /** The latest timestamp of a device after appending one of its rows that
      is not earlier than any it had. */
  lemma {:induction false} LatestAfterAppend(states: seq<StateRow>, row: StateRow)
    requires NotBefore(states, row.device, row.timestamp)
    ensures LatestTimestamp(states + [row], row.device) == Some(row.timestamp)
  {
    var s := states + [row];
    assert s[..|s| - 1] == states;
    var rest := LatestTimestamp(states, row.device);
    if rest.Some? {
      var k :| 0 <= k < |states| && states[k].device == row.device && states[k].timestamp == rest.value;
      assert rest.value <= row.timestamp;
    }
  }

  /** When samples arrive in time order, after `updateState` the device's
      latest state row carries the sample's state and alarm. */
  lemma {:induction false} StateIsCurrent(states: seq<StateRow>, device: nat, timestamp: nat, state: string, alarm: string)
    requires NotBefore(states, device, timestamp)
    ensures AtLatest(UpdateStateRows(states, device, timestamp, state, alarm), device, state, alarm)
  {
    if !AtLatest(states, device, state, alarm) {
      var row := StateRow(device, timestamp, state, alarm);
      var s := states + [row];
      LatestAfterAppend(states, row);
      assert s[|states|] == row;
      assert s[|states|].device == device && Some(s[|states|].timestamp) == LatestTimestamp(s, device);
    }
  }

  /** Two consecutive samples with the same state and alarm give one state
      row: the second insert finds the first and is skipped. */
  lemma RepeatedStateSkipped(states: seq<StateRow>, device: nat, timestamp: nat, later: nat, state: string, alarm: string)
    requires NotBefore(states, device, timestamp)
    ensures var once := UpdateStateRows(states, device, timestamp, state, alarm);
            UpdateStateRows(once, device, later, state, alarm) == once
  {
    StateIsCurrent(states, device, timestamp, state, alarm);
  }

  /** The first state of a device is always recorded. */
  lemma FirstStateRecorded(states: seq<StateRow>, device: nat, timestamp: nat, state: string, alarm: string)
    requires forall k :: 0 <= k < |states| ==> states[k].device != device
    ensures UpdateStateRows(states, device, timestamp, state, alarm) == states + [StateRow(device, timestamp, state, alarm)]
  {
  }

  /** A state or alarm different from those of every row at the device's
      latest timestamp is recorded. */
  lemma ChangedStateRecorded(states: seq<StateRow>, device: nat, timestamp: nat, state: string, alarm: string)
    requires forall k :: 0 <= k < |states| && states[k].device == device
               && Some(states[k].timestamp) == LatestTimestamp(states, device)
               ==> (states[k].state, states[k].alarm) != (state, alarm)
    ensures UpdateStateRows(states, device, timestamp, state, alarm) == states + [StateRow(device, timestamp, state, alarm)]
  {
  }

  /** What a call of `storeDatabase` ended with. */
  datatype Outcome = NotConfigured | Stored(id: nat) | Rejected(error: DbError)

  datatype Persisted = Persisted(tables: Tables, outcome: Outcome)

  /** The three statements that follow a resolved device id, in order. */
  function AfterResolve(t: Tables, id: nat, dp: Sample): (r: Tables)
    ensures r.nextId == t.nextId && |r.devices| == |t.devices|
    ensures forall k :: 0 <= k < |r.devices| ==> r.devices[k].id == t.devices[k].id && r.devices[k].serial == t.devices[k].serial
    ensures r.datapoints == t.datapoints + [DataPoint(id, dp)]
    ensures r.states == t.states || r.states == t.states + [StateRow(id, dp.timestamp, dp.stateText, dp.alarmState)]
  {
    var withStats := t.(devices := WithStats(t.devices, id, dp));
    var withData := withStats.(datapoints := withStats.datapoints + [DataPoint(id, dp)]);
    withData.(states := UpdateStateRows(withData.states, id, dp.timestamp, dp.stateText, dp.alarmState))
  }

  /** `storeDatabase(dp)`: nothing without database settings; otherwise
      resolve the device and, when that succeeds, run the three statements. */
  function Persist(t: Tables, dp: Sample, configured: bool, faults: Faults): (p: Persisted)
    ensures p.outcome.NotConfigured? <==> !configured
    ensures p.outcome.Stored? <==> configured && Resolve(t, dp.serial, dp.name, faults).Success?
    ensures !p.outcome.Stored? ==> p.tables == t
    ensures p.outcome.Stored? ==> p.tables.datapoints == t.datapoints + [DataPoint(p.outcome.id, dp)]
  {
    if !configured then Persisted(t, NotConfigured)
    else match Resolve(t, dp.serial, dp.name, faults)
      case Failure(e) => Persisted(t, Rejected(e))
      case Success(r) => Persisted(AfterResolve(r.tables, r.id, dp), Stored(r.id))
  }

  /** With no settings, or when the device cannot be resolved, no table changes. */
  lemma PersistWritesNothingUnresolved(t: Tables, dp: Sample, configured: bool, faults: Faults)
    requires !configured || Resolve(t, dp.serial, dp.name, faults).Failure?
    ensures Persist(t, dp, configured, faults).tables == t
    ensures !Persist(t, dp, configured, faults).outcome.Stored?
  {
  }

  /** Once the device is resolved: the device row of the sample's serial
      carries its statistics, exactly one datapoint row is appended whatever
      the timestamp, and, when the sample is no older than the device's state
      rows, the device's latest state row carries the sample's state and alarm. */
  lemma {:induction false} PersistEffects(t: Tables, dp: Sample, faults: Faults)
    requires Resolve(t, dp.serial, dp.name, faults).Success?
    ensures var p := Persist(t, dp, true, faults);
      && p.outcome.Stored?
      && FindDevice(p.tables.devices, dp.serial) == Some(p.outcome.id)
      && p.tables.datapoints == t.datapoints + [DataPoint(p.outcome.id, dp)]
      && (forall k :: 0 <= k < |p.tables.devices| && p.tables.devices[k].id == p.outcome.id ==>
            p.tables.devices[k].filterReset == Some(dp.filterReset) && p.tables.devices[k].workTime == Some(dp.workTime)
            && p.tables.devices[k].version == Some(dp.version) && p.tables.devices[k].name == dp.name)
      && (NotBefore(t.states, p.outcome.id, dp.timestamp) ==>
            AtLatest(p.tables.states, p.outcome.id, dp.stateText, dp.alarmState))
  {
    var r := Resolve(t, dp.serial, dp.name, faults).value;
    ResolveIdempotent(t, dp.serial, dp.name, dp.name, faults, Faults(false, false));
    var stats := WithStats(r.tables.devices, r.id, dp);
    FindDeviceSameSerials(r.tables.devices, stats, dp.serial);
    if NotBefore(t.states, r.id, dp.timestamp) {
      StateIsCurrent(r.tables.states, r.id, dp.timestamp, dp.stateText, dp.alarmState);
    }
  }

  /** The lookup by serial only depends on the serials and ids of the rows. */
  lemma {:induction false} FindDeviceSameSerials(a: seq<DeviceRow>, b: seq<DeviceRow>, serial: int)
    requires |a| == |b| && forall k :: 0 <= k < |a| ==> a[k].id == b[k].id && a[k].serial == b[k].serial
    ensures FindDevice(a, serial) == FindDevice(b, serial)
  {
    if |a| > 0 {
      FindDeviceSameSerials(a[1..], b[1..], serial);
    }
  }

  /** Resolving keeps the tables valid and yields a known id. */
  lemma ResolvePreservesValid(t: Tables, serial: int, name: seq<Byte>, faults: Faults)
    requires Valid(t) && Resolve(t, serial, name, faults).Success?
    ensures var r := Resolve(t, serial, name, faults).value;
            Valid(r.tables) && Known(r.tables.devices, r.id)
  {
    var r := Resolve(t, serial, name, faults).value;
    if FindDevice(t.devices, serial).None? {
      var devices := r.tables.devices;
      assert devices[|t.devices|].id == r.id;
      forall id | Known(t.devices, id) ensures Known(devices, id) {
        var k :| 0 <= k < |t.devices| && t.devices[k].id == id;
        assert devices[k].id == id;
      }
    }
  }

  /** The three statements after a resolved id of a known device keep the
      tables valid. */
  lemma AfterResolvePreservesValid(t: Tables, id: nat, dp: Sample)
    requires Valid(t) && Known(t.devices, id)
    ensures Valid(AfterResolve(t, id, dp))
  {
    var after := AfterResolve(t, id, dp);
    forall known | Known(t.devices, known) ensures Known(after.devices, known) {
      var k :| 0 <= k < |t.devices| && t.devices[k].id == known;
      assert after.devices[k].id == known;
    }
    assert Known(after.devices, id);
  }

  /** `storeDatabase` keeps the tables valid. */
  lemma PersistPreservesValid(t: Tables, dp: Sample, configured: bool, faults: Faults)
    requires Valid(t)
    ensures Valid(Persist(t, dp, configured, faults).tables)
  {
    if configured && Resolve(t, dp.serial, dp.name, faults).Success? {
      var r := Resolve(t, dp.serial, dp.name, faults).value;
      ResolvePreservesValid(t, dp.serial, dp.name, faults);
      AfterResolvePreservesValid(r.tables, r.id, dp);
    }
  }

  /** The database the statements of `storeDatabase` run against. */
  class Database {
    var devices: seq<DeviceRow>
    var nextId: nat
    var datapoints: seq<DataRow>
    var states: seq<StateRow>

    function Snapshot(): Tables
      reads this
    {
      Tables(devices, nextId, datapoints, states)
    }

    constructor (t: Tables)
      ensures Snapshot() == t
    {
      devices, nextId, datapoints, states := t.devices, t.nextId, t.datapoints, t.states;
    }

    /** `findDeviceId()`. */
    method FindDeviceId(serial: int, name: seq<Byte>, faults: Faults) returns (r: Result<nat, DbError>)
      modifies this
      ensures var res := Resolve(old(Snapshot()), serial, name, faults);
        match res
        case Success(resolved) => r == Success(resolved.id) && Snapshot() == resolved.tables
        case Failure(e) => r == Failure(e) && Snapshot() == old(Snapshot())
    {
      if faults.selectFails {
        return Failure(SelectFailed(serial));
      }
      var found := FindDevice(devices, serial);
      if found.Some? {
        return Success(found.value);
      }
      if faults.insertFails {
        return Failure(InsertFailed(serial));
      }
      devices := devices + [DeviceRow(nextId, serial, name, None, None, None)];
      r := Success(nextId);
      nextId := nextId + 1;
    }

    /** `updateDeviceStats(deviceId)`. */
    method UpdateDeviceStats(id: nat, dp: Sample)
      modifies this
      ensures Snapshot() == old(Snapshot()).(devices := WithStats(old(devices), id, dp))
    {
      devices := WithStats(devices, id, dp);
    }

    /** `insertDataRow(deviceId)`. */
    method InsertDataRow(id: nat, dp: Sample)
      modifies this
      ensures Snapshot() == old(Snapshot()).(datapoints := old(datapoints) + [DataPoint(id, dp)])
    {
      datapoints := datapoints + [DataPoint(id, dp)];
    }

    /** `updateState(deviceId)`. */
    method UpdateState(id: nat, dp: Sample)
      modifies this
      ensures Snapshot() == old(Snapshot()).(states := UpdateStateRows(old(states), id, dp.timestamp, dp.stateText, dp.alarmState))
    {
      if !AtLatest(states, id, dp.stateText, dp.alarmState) {
        states := states + [StateRow(id, dp.timestamp, dp.stateText, dp.alarmState)];
      }
    }

    /** `storeDatabase(dp)`. */
    method StoreDatabase(dp: Sample, configured: bool, faults: Faults) returns (outcome: Outcome)
      modifies this
      ensures Persisted(Snapshot(), outcome) == Persist(old(Snapshot()), dp, configured, faults)
    {
      if !configured {
        return NotConfigured;
      }
      var found := FindDeviceId(dp.serial, dp.name, faults);
      if found.Failure? {
        return Rejected(found.error);
      }
      var id := found.value;
      UpdateDeviceStats(id, dp);
      InsertDataRow(id, dp);
      UpdateState(id, dp);
      outcome := Stored(id);
    }
  }
}
