/** `checkModified` and `distance` of index.js: a new sample is worth storing
    when there is no cached sample for the device, when the cached one is more
    than 300 seconds away, when a temperature moved by more than 0.1 degrees,
    a fan by more than 100 rpm, or a discrete reading changed at all. The
    tests run in that order and stop at the first that fires; a positive
    answer replaces the cached sample. */
module ChangeDetection {
  import opened Wrappers
  import opened Pluggit
  import Timestamp
  import Datastore

  /** Seconds between two samples at most which nothing has timed out. */
  const ELAPSED_LIMIT := 300
  /** 0.1 degrees, in the hundredths temperatures are kept in. */
  const TEMPERATURE_LIMIT := 10
  /** 100 rpm, in the tenths fan speeds are kept in. */
  const FAN_LIMIT := 1000

  /** `Timestamp.parseSeconds` after `parseDate`: seconds since the epoch of
      the local date and time with these fields. */
  type Seconds = Timestamp.Calendar -> int

  /** `distance(v1, v2)`: the absolute difference of two readings. */
  function Distance(v1: int, v2: int): (d: nat)
    ensures d == 0 <==> v1 == v2
    ensures d == v1 - v2 || d == v2 - v1
    ensures v1 - v2 <= d && v2 - v1 <= d
  {
    if v1 >= v2 then v1 - v2 else v2 - v1
  }

  /** The compared fields of a sample, in the order the loops visit them. */
  function Temperature(s: Sample, i: nat): int
    requires i < 5
  {
    [s.t1, s.t2, s.t3, s.t4, s.t5][i]
  }

  function Fan(s: Sample, i: nat): int
    requires i < 2
  {
    [s.fan1, s.fan2][i]
  }

  function Discrete(s: Sample, i: nat): int
    requires i < 5
  {
    [s.humidity, s.bypass, s.speed, s.state, s.alarm][i]
  }

  /** Seconds between the timestamps of two samples, in either direction. */
  function Elapsed(dp: Sample, c: Sample, seconds: Seconds): nat {
    Distance(seconds(Timestamp.ParseDate(dp.timestamp)), seconds(Timestamp.ParseDate(c.timestamp)))
  }

  predicate TimedOut(dp: Sample, c: Sample, seconds: Seconds) {
    Elapsed(dp, c, seconds) > ELAPSED_LIMIT
  }

  predicate TemperatureMoved(dp: Sample, c: Sample) {
    exists i :: 0 <= i < 5 && Distance(Temperature(dp, i), Temperature(c, i)) > TEMPERATURE_LIMIT
  }

  predicate FanMoved(dp: Sample, c: Sample) {
    exists i :: 0 <= i < 2 && Distance(Fan(dp, i), Fan(c, i)) > FAN_LIMIT
  }

  predicate DiscreteChanged(dp: Sample, c: Sample) {
    exists i :: 0 <= i < 5 && Discrete(dp, i) != Discrete(c, i)
  }

  /** The rule `checkModified` decides, stated without its loops. */
  predicate Modified(cached: Option<Sample>, dp: Sample, seconds: Seconds): (m: bool)
    ensures cached.None? ==> m
    ensures cached.Some? && TimedOut(dp, cached.value, seconds) ==> m
    ensures cached.Some? && SameReadings(dp, cached.value) ==> (m <==> TimedOut(dp, cached.value, seconds))
  {
    match cached
    case None => true
    case Some(c) => TimedOut(dp, c, seconds) || TemperatureMoved(dp, c) || FanMoved(dp, c) || DiscreteChanged(dp, c)
  }

  /** The decision part of `checkModified`: the `modified` flag and its three
      loops with `break`, against the cached entry `cached`. */
  method Changed(cached: Option<Sample>, dp: Sample, seconds: Seconds) returns (modified: bool)
    ensures modified == Modified(cached, dp, seconds)
  {
    if cached.None? {
      return true;
    }
    var c := cached.value;
    modified := false;
    if Elapsed(dp, c, seconds) > ELAPSED_LIMIT {
      modified := true;
    }
    if !modified {
      var i := 0;
      while i < 5
        invariant 0 <= i <= 5
        invariant forall j :: 0 <= j < i ==> Distance(Temperature(dp, j), Temperature(c, j)) <= TEMPERATURE_LIMIT
      {
        if Distance(Temperature(dp, i), Temperature(c, i)) > TEMPERATURE_LIMIT {
          modified := true;
          break;
        }
        i := i + 1;
      }
    }
    if !modified {
      var i := 0;
      while i < 2
        invariant 0 <= i <= 2
        invariant forall j :: 0 <= j < i ==> Distance(Fan(dp, j), Fan(c, j)) <= FAN_LIMIT
      {
        if Distance(Fan(dp, i), Fan(c, i)) > FAN_LIMIT {
          modified := true;
          break;
        }
        i := i + 1;
      }
    }
    if !modified {
      var i := 0;
      while i < 5
        invariant 0 <= i <= 5
        invariant forall j :: 0 <= j < i ==> Discrete(dp, j) == Discrete(c, j)
      {
        if Discrete(dp, i) != Discrete(c, i) {
          modified := true;
          break;
        }
        i := i + 1;
      }
    }
  }

  /** `checkModified(deviceId, dp)`: look up the cached sample, decide, and
      on a change store a copy of `dp` in its place. */
  method CheckModified(store: Datastore.Cache<Sample>, deviceId: int, dp: Sample, seconds: Seconds)
      returns (modified: bool)
    modifies store
    ensures modified == Modified(Datastore.Find(old(store.entries), deviceId), dp, seconds)
    ensures store.entries == if modified then old(store.entries)[deviceId := dp] else old(store.entries)
  {
    var c := store.Get(deviceId);
    modified := Changed(c, dp, seconds);
    if modified {
      store.Set(deviceId, dp);
    }
  }

  /** Two samples agree on every field the rule compares. */
  predicate SameReadings(a: Sample, b: Sample) {
    && (forall i :: 0 <= i < 5 ==> Temperature(a, i) == Temperature(b, i))
    && (forall i :: 0 <= i < 2 ==> Fan(a, i) == Fan(b, i))
    && (forall i :: 0 <= i < 5 ==> Discrete(a, i) == Discrete(b, i))
  }

  /** A sample compared with itself is never a change. */
  lemma NotModifiedBySelf(dp: Sample, seconds: Seconds)
    ensures !Modified(Some(dp), dp, seconds)
  {
  }

  /** With no cached sample the answer is always yes. */
  lemma ModifiedWithoutEntry(dp: Sample, seconds: Seconds)
    ensures Modified(None, dp, seconds)
  {
  }

  /** The timeout fires in either direction: a new sample older than the
      cached one by more than 300 seconds counts as well. */
  lemma TimeoutEitherWay(c: Sample, dp: Sample, seconds: Seconds)
    ensures var now, cached := seconds(Timestamp.ParseDate(dp.timestamp)), seconds(Timestamp.ParseDate(c.timestamp));
            (now - cached > ELAPSED_LIMIT || cached - now > ELAPSED_LIMIT) ==> Modified(Some(c), dp, seconds)
  {
  }

  /** When the compared readings are the same, the answer depends on the
      elapsed time alone; in particular identical readings within 300
      seconds are no change. */
  lemma {:induction false} SameReadingsOnlyTimeout(c: Sample, dp: Sample, seconds: Seconds)
    requires SameReadings(dp, c)
    ensures Modified(Some(c), dp, seconds) <==> Elapsed(dp, c, seconds) > ELAPSED_LIMIT
  {
  }

  /** The sample with reading `i` of one group replaced by `v`. */
  function WithTemperature(s: Sample, i: nat, v: int): (r: Sample)
    requires i < 5
    ensures Temperature(r, i) == v
    ensures forall j :: 0 <= j < 5 && j != i ==> Temperature(r, j) == Temperature(s, j)
    ensures forall j :: 0 <= j < 2 ==> Fan(r, j) == Fan(s, j)
    ensures forall j :: 0 <= j < 5 ==> Discrete(r, j) == Discrete(s, j)
    ensures r.timestamp == s.timestamp
  {
    if i == 0 then s.(t1 := v)
    else if i == 1 then s.(t2 := v)
    else if i == 2 then s.(t3 := v)
    else if i == 3 then s.(t4 := v)
    else s.(t5 := v)
  }

  function WithFan(s: Sample, i: nat, v: int): (r: Sample)
    requires i < 2
    ensures Fan(r, i) == v
    ensures forall j :: 0 <= j < 2 && j != i ==> Fan(r, j) == Fan(s, j)
    ensures forall j :: 0 <= j < 5 ==> Temperature(r, j) == Temperature(s, j)
    ensures forall j :: 0 <= j < 5 ==> Discrete(r, j) == Discrete(s, j)
    ensures r.timestamp == s.timestamp
  {
    if i == 0 then s.(fan1 := v) else s.(fan2 := v)
  }

  function WithDiscrete(s: Sample, i: nat, v: nat): (r: Sample)
    requires i < 5
    ensures Discrete(r, i) == v
    ensures forall j :: 0 <= j < 5 && j != i ==> Discrete(r, j) == Discrete(s, j)
    ensures forall j :: 0 <= j < 5 ==> Temperature(r, j) == Temperature(s, j)
    ensures forall j :: 0 <= j < 2 ==> Fan(r, j) == Fan(s, j)
    ensures r.timestamp == s.timestamp
  {
    if i == 0 then s.(humidity := v)
    else if i == 1 then s.(bypass := v)
    else if i == 2 then s.(speed := v)
    else if i == 3 then s.(state := v)
    else s.(alarm := v)
  }

  /** One temperature moving on its own, in a sample taken within 300
      seconds of the cached one, is a change exactly when it moves by more
      than 0.1 degrees; a move of exactly 0.1 is not. */
  lemma {:induction false} TemperatureThreshold(c: Sample, i: nat, v: int, ts: nat, seconds: Seconds)
    requires i < 5 && !TimedOut(c.(timestamp := ts), c, seconds)
    ensures Modified(Some(c), WithTemperature(c, i, v).(timestamp := ts), seconds) <==> Distance(v, Temperature(c, i)) > TEMPERATURE_LIMIT
    ensures !Modified(Some(c), WithTemperature(c, i, Temperature(c, i) + TEMPERATURE_LIMIT).(timestamp := ts), seconds)
  {
    var dp := WithTemperature(c, i, v).(timestamp := ts);
    assert !TimedOut(dp, c, seconds);
    if TemperatureMoved(dp, c) {
      var j :| 0 <= j < 5 && Distance(Temperature(dp, j), Temperature(c, j)) > TEMPERATURE_LIMIT;
      assert j == i;
    }
    if Distance(v, Temperature(c, i)) > TEMPERATURE_LIMIT {
      assert Distance(Temperature(dp, i), Temperature(c, i)) > TEMPERATURE_LIMIT;
    }
    assert !FanMoved(dp, c);
    assert !DiscreteChanged(dp, c);
    var edge := WithTemperature(c, i, Temperature(c, i) + TEMPERATURE_LIMIT).(timestamp := ts);
    assert !TimedOut(edge, c, seconds);
    assert !FanMoved(edge, c);
    assert !DiscreteChanged(edge, c);
  }

  /** One fan moving on its own, in a sample taken within 300 seconds of the
      cached one, is a change exactly when it moves by more than 100 rpm; a
      move of exactly 100 rpm is not. */
  lemma {:induction false} FanThreshold(c: Sample, i: nat, v: int, ts: nat, seconds: Seconds)
    requires i < 2 && !TimedOut(c.(timestamp := ts), c, seconds)
    ensures Modified(Some(c), WithFan(c, i, v).(timestamp := ts), seconds) <==> Distance(v, Fan(c, i)) > FAN_LIMIT
    ensures !Modified(Some(c), WithFan(c, i, Fan(c, i) + FAN_LIMIT).(timestamp := ts), seconds)
  {
    var dp := WithFan(c, i, v).(timestamp := ts);
    assert !TimedOut(dp, c, seconds);
    if FanMoved(dp, c) {
      var j :| 0 <= j < 2 && Distance(Fan(dp, j), Fan(c, j)) > FAN_LIMIT;
      assert j == i;
    }
    if Distance(v, Fan(c, i)) > FAN_LIMIT {
      assert Distance(Fan(dp, i), Fan(c, i)) > FAN_LIMIT;
    }
    assert !TemperatureMoved(dp, c);
    assert !DiscreteChanged(dp, c);
    var edge := WithFan(c, i, Fan(c, i) + FAN_LIMIT).(timestamp := ts);
    assert !TimedOut(edge, c, seconds);
    assert !TemperatureMoved(edge, c);
    assert !DiscreteChanged(edge, c);
  }

  /** One discrete reading on its own, in a sample taken within 300 seconds
      of the cached one, is a change exactly when it differs. */
  lemma {:induction false} DiscreteThreshold(c: Sample, i: nat, v: nat, ts: nat, seconds: Seconds)
    requires i < 5 && !TimedOut(c.(timestamp := ts), c, seconds)
    ensures Modified(Some(c), WithDiscrete(c, i, v).(timestamp := ts), seconds) <==> v != Discrete(c, i)
  {
    var dp := WithDiscrete(c, i, v).(timestamp := ts);
    assert !TimedOut(dp, c, seconds);
    if DiscreteChanged(dp, c) {
      var j :| 0 <= j < 5 && Discrete(dp, j) != Discrete(c, j);
      assert j == i;
    }
    if v != Discrete(c, i) {
      assert Discrete(dp, i) != Discrete(c, i);
    }
    assert !TemperatureMoved(dp, c);
    assert !FanMoved(dp, c);
  }

  /** Fields the rule does not compare (name, version, serial, filter and
      work time, the text labels) never change its answer. */
  lemma {:induction false} UncomparedFieldsIgnored(c: Sample, a: Sample, b: Sample, seconds: Seconds)
    requires SameReadings(a, b) && a.timestamp == b.timestamp
    ensures Modified(Some(c), a, seconds) <==> Modified(Some(c), b, seconds)
  {
    if TemperatureMoved(a, c) {
      var i :| 0 <= i < 5 && Distance(Temperature(a, i), Temperature(c, i)) > TEMPERATURE_LIMIT;
      assert Temperature(a, i) == Temperature(b, i);
    }
    if TemperatureMoved(b, c) {
      var i :| 0 <= i < 5 && Distance(Temperature(b, i), Temperature(c, i)) > TEMPERATURE_LIMIT;
      assert Temperature(a, i) == Temperature(b, i);
    }
    if FanMoved(a, c) {
      var i :| 0 <= i < 2 && Distance(Fan(a, i), Fan(c, i)) > FAN_LIMIT;
      assert Fan(a, i) == Fan(b, i);
    }
    if FanMoved(b, c) {
      var i :| 0 <= i < 2 && Distance(Fan(b, i), Fan(c, i)) > FAN_LIMIT;
      assert Fan(a, i) == Fan(b, i);
    }
    if DiscreteChanged(a, c) {
      var i :| 0 <= i < 5 && Discrete(a, i) != Discrete(c, i);
      assert Discrete(a, i) == Discrete(b, i);
    }
    if DiscreteChanged(b, c) {
      var i :| 0 <= i < 5 && Discrete(b, i) != Discrete(c, i);
      assert Discrete(a, i) == Discrete(b, i);
    }
  }
}
