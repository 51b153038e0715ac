/**
  `Home::print_room_temperatures` (src/main.rs lines 152-160): the debug lines the loop logs,
  one per status entry whose code names a temperature, as (device name, value) pairs in
  device order and, within a device, in status order.
 */
module Readings {
  import opened Ally

  datatype Reading = Reading(deviceName: string, value: string)

  /** The two telemetry codes that carry a room temperature. */
  predicate IsTemperatureCode(code: string) {
    code == "va_temperature" || code == "temp_current"
  }

  /** The temperature readings among `ss`, labelled with `name`. */
  function StatusReadings(name: string, ss: seq<Status>): (r: seq<Reading>)
    ensures |r| <= |ss|
    ensures (forall j :: 0 <= j < |ss| ==> !IsTemperatureCode(ss[j].code)) ==> r == []
    ensures forall x :: x in r <==>
      exists j :: 0 <= j < |ss| && IsTemperatureCode(ss[j].code) && x == Reading(name, ss[j].value)
    decreases |ss|
  {
    if |ss| == 0 then []
    else
      var init := ss[..|ss| - 1];
      var s := ss[|ss| - 1];
      var r' := StatusReadings(name, init);
      assert forall j :: 0 <= j < |init| ==> init[j] == ss[j];
      if IsTemperatureCode(s.code) then r' + [Reading(name, s.value)] else r'
  }

  /** Every temperature reading across `ds`, device by device. */
  function TemperatureReadings(ds: seq<Device>): (r: seq<Reading>)
    ensures forall x :: x in r <==>
      exists i, j :: 0 <= i < |ds| && 0 <= j < |ds[i].status|
        && IsTemperatureCode(ds[i].status[j].code) && x == Reading(ds[i].name, ds[i].status[j].value)
    decreases |ds|
  {
    if |ds| == 0 then []
    else
      var init := ds[..|ds| - 1];
      var d := ds[|ds| - 1];
      assert forall i :: 0 <= i < |init| ==> init[i] == ds[i];
      TemperatureReadings(init) + StatusReadings(d.name, d.status)
  }

  /** Readings follow device order: the log for two lists back to back is the two logs back to back. */
  lemma {:induction false} ReadingsConcat(a: seq<Device>, b: seq<Device>)
    ensures TemperatureReadings(a + b) == TemperatureReadings(a) + TemperatureReadings(b)
    decreases |b|
  {
    if |b| == 0 {
      assert a + b == a;
    } else {
      var b', d := b[..|b| - 1], b[|b| - 1];
      assert (a + b)[..|a + b| - 1] == a + b';
      assert (a + b)[|a + b| - 1] == d;
      ReadingsConcat(a, b');
      calc {
        TemperatureReadings(a + b);
        TemperatureReadings(a + b') + StatusReadings(d.name, d.status);
        TemperatureReadings(a) + (TemperatureReadings(b') + StatusReadings(d.name, d.status));
      }
    }
  }

  /** One line per matching entry, in status order: the log of two status lists back to back. */
  lemma {:induction false} StatusReadingsConcat(name: string, a: seq<Status>, b: seq<Status>)
    ensures StatusReadings(name, a + b) == StatusReadings(name, a) + StatusReadings(name, b)
    decreases |b|
  {
    if |b| == 0 {
      assert a + b == a;
    } else {
      var b' := b[..|b| - 1];
      assert (a + b)[..|a + b| - 1] == a + b';
      assert (a + b)[|a + b| - 1] == b[|b| - 1];
      StatusReadingsConcat(name, a, b');
    }
  }

  /**
    The unit cases: one status entry logs one line exactly when its code is a temperature,
    and one device logs exactly its own status readings under its name.
   */
  lemma ReadingsOfOne(name: string, s: Status, d: Device)
    ensures StatusReadings(name, [s]) == if IsTemperatureCode(s.code) then [Reading(name, s.value)] else []
    ensures TemperatureReadings([d]) == StatusReadings(d.name, d.status)
  {
    assert [s][..0] == [];
    assert [d][..0] == [];
  }

  /** A device with no temperature-coded status adds nothing to the log. */
  lemma SilentDevice(ds: seq<Device>, d: Device)
    requires forall j :: 0 <= j < |d.status| ==> !IsTemperatureCode(d.status[j].code)
    ensures TemperatureReadings(ds + [d]) == TemperatureReadings(ds)
  {
    assert (ds + [d])[..|ds|] == ds;
  }
}
