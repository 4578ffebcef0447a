/** The observable state of models/gauge_model.py: the current value, the
    connection flag, the port settings and the reading flag, with setters that
    signal only on a real change. Signals are an event log. */
module GaugeState {

  /** The signals `dataChanged` and `connectionChanged`. */
  datatype Event = DataChanged(value: real) | ConnectionChanged(connected: bool)

  datatype GaugeModel = GaugeModel(
    currentValue: real,
    isConnected: bool,
    port: string,
    baudrate: int,
    isReading: bool)

  /** What `get_current_connection_info` returns. */
  datatype ConnectionInfo = ConnectionInfo(port: string, baudrate: int, isConnected: bool)

  /** A model after a setter, with the signals it emitted. */
  datatype Update = Update(model: GaugeModel, events: seq<Event>)

  function Init(): (m: GaugeModel)
    ensures m.currentValue == 0.0 && !m.isConnected && !m.isReading
    ensures m.port == "" && m.baudrate == 9600
  {
    GaugeModel(0.0, false, "", 9600, false)
  }

  /** The `current_value` setter: stores `v` and emits `dataChanged(v)` iff it
      differs from the stored value; nothing else changes. */
  function SetCurrentValue(m: GaugeModel, v: real): (u: Update)
    ensures u.model == m.(currentValue := v)
    ensures |u.events| <= 1
    ensures u.events != [] <==> v != m.currentValue
    ensures u.events != [] ==> u.events[0] == DataChanged(v)
  {
    if m.currentValue != v then Update(m.(currentValue := v), [DataChanged(v)])
    else Update(m, [])
  }

  /** The `is_connected` setter: emits `connectionChanged` iff the flag flips. */
  function SetIsConnected(m: GaugeModel, connected: bool): (u: Update)
    ensures u.model == m.(isConnected := connected)
    ensures |u.events| <= 1
    ensures u.events != [] <==> connected != m.isConnected
    ensures u.events != [] ==> u.events[0] == ConnectionChanged(connected)
  {
    if m.isConnected != connected then Update(m.(isConnected := connected), [ConnectionChanged(connected)])
    else Update(m, [])
  }

  /** The `is_reading` setter: updates the flag and never signals. */
  function SetIsReading(m: GaugeModel, reading: bool): (u: Update)
    ensures u.model == m.(isReading := reading)
    ensures u.events == []
  {
    if m.isReading != reading then Update(m.(isReading := reading), []) else Update(m, [])
  }

  /** Setting a value twice signals at most once: the second set is a no-op. */
  lemma SetCurrentValueIdempotent(m: GaugeModel, v: real)
    ensures var once := SetCurrentValue(m, v);
            SetCurrentValue(once.model, v) == Update(once.model, [])
  {
  }

  lemma SetIsConnectedIdempotent(m: GaugeModel, connected: bool)
    ensures var once := SetIsConnected(m, connected);
            SetIsConnected(once.model, connected) == Update(once.model, [])
  {
  }

  /** A sequence of value updates signals exactly the changes: one
      `dataChanged`, in order, for each element that differs from the value
      before it. */
  function ApplyValues(m: GaugeModel, vs: seq<real>): (u: Update)
    ensures u.model.isConnected == m.isConnected && u.model.port == m.port
    ensures u.model.baudrate == m.baudrate && u.model.isReading == m.isReading
    ensures |vs| > 0 ==> u.model.currentValue == vs[|vs| - 1]
    ensures |vs| == 0 ==> u.model == m
    ensures |u.events| == |ChangedValues(m.currentValue, vs)|
    ensures forall k :: 0 <= k < |u.events| ==>
              u.events[k] == DataChanged(ChangedValues(m.currentValue, vs)[k])
    decreases |vs|
  {
    if |vs| == 0 then Update(m, [])
    else
      var first := SetCurrentValue(m, vs[0]);
      var rest := ApplyValues(first.model, vs[1..]);
      Update(rest.model, first.events + rest.events)
  }

  /** The elements of `vs` that differ from the value before them, the first
      compared with `start`. */
  function ChangedValues(start: real, vs: seq<real>): seq<real>
    decreases |vs|
  {
    if |vs| == 0 then []
    else (if vs[0] != start then [vs[0]] else []) + ChangedValues(vs[0], vs[1..])
  }

  /** Every signalled value is one of the values applied, there are no more
      signals than values, and a run whose last value is new ends by
      signalling it. */
  lemma {:induction false} ChangedValuesFromInput(start: real, vs: seq<real>)
    ensures |ChangedValues(start, vs)| <= |vs|
    ensures forall x :: x in ChangedValues(start, vs) ==> x in vs
    ensures |vs| > 0 && vs[|vs| - 1] != (if |vs| == 1 then start else vs[|vs| - 2]) ==>
              ChangedValues(start, vs) != [] && ChangedValues(start, vs)[|ChangedValues(start, vs)| - 1] == vs[|vs| - 1]
    decreases |vs|
  {
    if |vs| > 0 {
      ChangedValuesFromInput(vs[0], vs[1..]);
      var tail := ChangedValues(vs[0], vs[1..]);
      assert ChangedValues(start, vs) == (if vs[0] != start then [vs[0]] else []) + tail;
      forall x | x in ChangedValues(start, vs)
        ensures x in vs
      {
        if x in tail {
          assert x in vs[1..];
        }
      }
      if |vs| > 1 {
        assert vs[1..][|vs[1..]| - 1] == vs[|vs| - 1];
        assert |vs[1..]| > 1 ==> vs[1..][|vs[1..]| - 2] == vs[|vs| - 2];
      }
    }
  }

  /** A constant run signals nothing. */
  lemma {:induction false} RepeatedValueIsSilent(start: real, vs: seq<real>)
    requires forall k :: 0 <= k < |vs| ==> vs[k] == start
    ensures ChangedValues(start, vs) == []
    decreases |vs|
  {
    if |vs| > 0 {
      RepeatedValueIsSilent(start, vs[1..]);
    }
  }

  /** `connect_device`: records port and rate and returns True; the connection
      flag is left alone and nothing is signalled. */
  function ConnectDevice(m: GaugeModel, port: string, baudrate: int): (r: (GaugeModel, bool))
    ensures r.1
    ensures r.0 == m.(port := port, baudrate := baudrate)
    ensures GetCurrentConnectionInfo(r.0) == ConnectionInfo(port, baudrate, m.isConnected)
  {
    (m.(port := port, baudrate := baudrate), true)
  }

  /** `start_continuous_read`: raises the reading flag through its setter. */
  function StartContinuousRead(m: GaugeModel, interval: real): (u: Update)
    ensures u.model == m.(isReading := true) && u.events == []
  {
    SetIsReading(m, true)
  }

  /** `stop_continuous_read`: lowers the reading flag through its setter. */
  function StopContinuousRead(m: GaugeModel): (u: Update)
    ensures u.model == m.(isReading := false) && u.events == []
  {
    SetIsReading(m, false)
  }

  /** `get_current_connection_info`: the stored port, rate and flag. */
  function GetCurrentConnectionInfo(m: GaugeModel): (info: ConnectionInfo)
    ensures info.port == m.port && info.baudrate == m.baudrate && info.isConnected == m.isConnected
  {
    ConnectionInfo(m.port, m.baudrate, m.isConnected)
  }

  /** The connection info reports the connection flag as last set, and the
      value and reading setters leave it alone. */
  lemma ConnectionInfoTracksSetters(m: GaugeModel, v: real, connected: bool, reading: bool)
    ensures GetCurrentConnectionInfo(SetIsConnected(m, connected).model).isConnected == connected
    ensures GetCurrentConnectionInfo(SetCurrentValue(m, v).model) == GetCurrentConnectionInfo(m)
    ensures GetCurrentConnectionInfo(SetIsReading(m, reading).model) == GetCurrentConnectionInfo(m)
  {
  }

  /** Reading on and off leaves the model as it was. */
  lemma StartStopRestores(m: GaugeModel, interval: real)
    requires !m.isReading
    ensures StopContinuousRead(StartContinuousRead(m, interval).model).model == m
  {
  }
}
