/**
 * The part of nestGet that turns the decoded response body into a sample:
 * a walk through `devices`, `thermostats` and the configured device id,
 * then the extraction of three fields of the device object.
 */
module Navigation {
  import opened Wrappers
  import opened Thermostat

  /** A decoded JSON value; numbers are taken to be integers already. */
  datatype Json =
    | JNull
    | JBool(b: bool)
    | JNum(n: int)
    | JStr(s: string)
    | JArray(items: seq<Json>)
    | JObject(fields: map<string, Json>)

  /**
   * The outcome of navigation. A missing key or a value of the wrong kind
   * fails a single-value Go type assertion, which panics instead of
   * returning an error, so there is no graceful error case here.
   */
  datatype Navigated = Found(data: NestData) | Panic

  /** The keys walked from the top of the response to the device object. */
  function DevicePath(id: string): seq<string> {
    ["devices", "thermostats", id]
  }

  /** The object reached from `m` by following `path`, each step through an object-valued key. */
  function Walk(m: map<string, Json>, path: seq<string>): Option<map<string, Json>>
    decreases |path|
  {
    if path == [] then Some(m)
    else if path[0] in m && m[path[0]].JObject? then Walk(m[path[0]].fields, path[1..])
    else None
  }

  /** The device object carries a number temperature and string mode and state. */
  predicate HasSampleFields(device: map<string, Json>) {
    && "ambient_temperature_f" in device && device["ambient_temperature_f"].JNum?
    && "hvac_mode" in device && device["hvac_mode"].JStr?
    && "hvac_state" in device && device["hvac_state"].JStr?
  }

  /** Navigation from the raw response down to the device object and the extraction of its sample. */
  method Navigate(raw: Json, id: string) returns (r: Navigated)
    ensures r.Found? <==>
      raw.JObject? && Walk(raw.fields, DevicePath(id)).Some? && HasSampleFields(Walk(raw.fields, DevicePath(id)).value)
    ensures r.Found? ==>
      var device := Walk(raw.fields, DevicePath(id)).value;
      && r.data.currentTemperature == device["ambient_temperature_f"].n
      && r.data.hvacMode == device["hvac_mode"].s
      && r.data.isCooling == (device["hvac_state"].s == "cooling")
  {
    if !raw.JObject? {
      return Panic;
    }
    var navigator := raw.fields;
    var path := DevicePath(id);
    var i := 0;
    while i < |path|
      invariant 0 <= i <= |path|
      invariant Walk(raw.fields, path) == Walk(navigator, path[i..])
    {
      var key := path[i];
      if key !in navigator || !navigator[key].JObject? {
        return Panic;
      }
      assert path[i..][1..] == path[i + 1..];
      navigator := navigator[key].fields;
      i := i + 1;
    }
    if !HasSampleFields(navigator) {
      return Panic;
    }
    var data := NestData(
      navigator["ambient_temperature_f"].n,
      navigator["hvac_mode"].s,
      navigator["hvac_state"].s == "cooling");
    return Found(data);
  }

  /** Reaching the device succeeds exactly when every key on the path is present and names an object. */
  lemma WalkDevicePath(raw: map<string, Json>, id: string)
    ensures Walk(raw, DevicePath(id)).Some? <==>
      && "devices" in raw && raw["devices"].JObject?
      && "thermostats" in raw["devices"].fields && raw["devices"].fields["thermostats"].JObject?
      && id in raw["devices"].fields["thermostats"].fields
      && raw["devices"].fields["thermostats"].fields[id].JObject?
    ensures Walk(raw, DevicePath(id)).Some? ==>
      Walk(raw, DevicePath(id)).value == raw["devices"].fields["thermostats"].fields[id].fields
  {
    var path := DevicePath(id);
    assert path[1..] == ["thermostats", id];
    assert path[1..][1..] == [id];
    assert path[1..][1..][1..] == [];
    if "devices" in raw && raw["devices"].JObject? {
      var devices := raw["devices"].fields;
      assert Walk(raw, path) == Walk(devices, ["thermostats", id]);
      if "thermostats" in devices && devices["thermostats"].JObject? {
        var thermostats := devices["thermostats"].fields;
        assert Walk(devices, ["thermostats", id]) == Walk(thermostats, [id]);
        if id in thermostats && thermostats[id].JObject? {
          assert Walk(thermostats, [id]) == Walk(thermostats[id].fields, []);
        }
      }
    }
  }
}
