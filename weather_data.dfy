/**
 * The data items the watch face receives from the phone through the
 * wearable data layer: a buffer of data events, each carrying a path and a
 * data map. Only `TYPE_CHANGED` events on `/weather-info` update the face.
 */
module WeatherData {

  /** A Java reference that may be null. */
  datatype Option<T> = None | Some(value: T)

  /** An image asset attached to a data item, identified by its digest. */
  datatype Asset = Asset(digest: string)

  /** The data path the phone publishes the weather under. */
  const WeatherPath: string := "/weather-info"

  /** `DataEvent.TYPE_CHANGED` and `DataEvent.TYPE_DELETED`. */
  datatype EventType = Changed | Deleted

  /**
   * The entries of a data map that the face reads: `max_temp` and
   * `min_temp` with `getString`, `weather_icon` with `getAsset`; each reads
   * as null when the key is absent.
   */
  datatype WeatherMap = WeatherMap(maxTemp: Option<string>, minTemp: Option<string>, icon: Option<Asset>)

  /** One event of a `DataEventBuffer`: its type, its item's URI path and its data map. */
  datatype DataEvent = DataEvent(kind: EventType, path: string, data: WeatherMap)

  /** The guard of `onDataChanged`: a changed item on the weather path. */
  predicate IsWeatherUpdate(e: DataEvent) {
    e.kind == Changed && e.path == WeatherPath
  }

  /**
   * The position of the last weather update in the buffer, if any: every
   * later event is something else, and there is none at all when the
   * result is `None`.
   */
  function LastWeatherUpdate(events: seq<DataEvent>): (k: Option<nat>)
    ensures k.Some? ==> k.value < |events| && IsWeatherUpdate(events[k.value])
    ensures k.Some? ==> forall j :: k.value < j < |events| ==> !IsWeatherUpdate(events[j])
    ensures k.None? <==> forall j :: 0 <= j < |events| ==> !IsWeatherUpdate(events[j])
  {
    if events == [] then None
    else if IsWeatherUpdate(events[|events| - 1]) then Some(|events| - 1)
    else LastWeatherUpdate(events[..|events| - 1])
  }

  /** How many weather updates the buffer holds: at most one per event. */
  function CountWeatherUpdates(events: seq<DataEvent>): (n: nat)
    ensures n <= |events|
  {
    if events == [] then 0
    else CountWeatherUpdates(events[..|events| - 1]) + (if IsWeatherUpdate(events[|events| - 1]) then 1 else 0)
  }

  /** A buffer holds no weather update exactly when it has no last one. */
  lemma {:induction false} NoUpdatesIffNoLast(events: seq<DataEvent>)
    ensures CountWeatherUpdates(events) == 0 <==> LastWeatherUpdate(events).None?
    decreases |events|
  {
    if events != [] && !IsWeatherUpdate(events[|events| - 1]) {
      NoUpdatesIffNoLast(events[..|events| - 1]);
    }
  }

  /**
   * The weather the face holds after walking the buffer from `current`:
   * each weather update replaces the whole map, anything else keeps it.
   */
  function LatestWeather(events: seq<DataEvent>, current: WeatherMap): (w: WeatherMap)
  {
    if events == [] then current
    else
      var last := events[|events| - 1];
      if IsWeatherUpdate(last) then last.data else LatestWeather(events[..|events| - 1], current)
  }

  /**
   * Walking the buffer and looking up its last weather update give the same
   * weather: the last update wins, and without one the old weather stays.
   */
  lemma {:induction false} LatestWeatherIsLastUpdate(events: seq<DataEvent>, current: WeatherMap)
    ensures LastWeatherUpdate(events).None? ==> LatestWeather(events, current) == current
    ensures LastWeatherUpdate(events).Some? ==>
      LatestWeather(events, current) == events[LastWeatherUpdate(events).value].data
  {
    if events != [] && !IsWeatherUpdate(events[|events| - 1]) {
      var init := events[..|events| - 1];
      LatestWeatherIsLastUpdate(init, current);
    }
  }

  /** Both views of a buffer grow by one event at a time, as the walk over it does. */
  lemma PrefixStep(events: seq<DataEvent>, i: nat, current: WeatherMap)
    requires i < |events|
    ensures CountWeatherUpdates(events[..i + 1]) ==
      CountWeatherUpdates(events[..i]) + if IsWeatherUpdate(events[i]) then 1 else 0
    ensures LatestWeather(events[..i + 1], current) ==
      if IsWeatherUpdate(events[i]) then events[i].data else LatestWeather(events[..i], current)
  {
    assert events[..i + 1][..i] == events[..i];
  }

  /** One event that is not a weather update, appended to a buffer, changes neither view. */
  lemma AppendIrrelevant(events: seq<DataEvent>, e: DataEvent, current: WeatherMap)
    requires !IsWeatherUpdate(e)
    ensures CountWeatherUpdates(events + [e]) == CountWeatherUpdates(events)
    ensures LastWeatherUpdate(events + [e]) == LastWeatherUpdate(events)
    ensures LatestWeather(events + [e], current) == LatestWeather(events, current)
  {
    assert (events + [e])[..|events|] == events;
  }

  /**
   * Events that are not weather updates — deletions, other paths — change
   * nothing: appending them to a buffer leaves both views as they were.
   */
  lemma {:induction false} IrrelevantEventsIgnored(events: seq<DataEvent>, extra: seq<DataEvent>, current: WeatherMap)
    requires forall j :: 0 <= j < |extra| ==> !IsWeatherUpdate(extra[j])
    ensures CountWeatherUpdates(events + extra) == CountWeatherUpdates(events)
    ensures LastWeatherUpdate(events + extra) == LastWeatherUpdate(events)
    ensures LatestWeather(events + extra, current) == LatestWeather(events, current)
    decreases |extra|
  {
    if extra == [] {
      assert events + extra == events;
    } else {
      var init, last := extra[..|extra| - 1], extra[|extra| - 1];
      assert forall j :: 0 <= j < |init| ==> init[j] == extra[j];
      IrrelevantEventsIgnored(events, init, current);
      AppendIrrelevant(events + init, last, current);
      assert events + extra == (events + init) + [last];
    }
  }
}
