# Sunshine watch face: redraw scheduler and display state

A Dafny model of the engine of the Sunshine digital watch face
(`SunshineWearFace.Engine`). The engine is a small event-driven state machine
on the UI thread. It tracks three display modes: the host's visibility and
ambient flags, and the mute mode set by the interruption filter. While the
face is visible and interactive it runs a redraw timer made of
`MSG_UPDATE_TIME` messages on a handler. Each tick redraws the face and, for a
clock at or after the epoch, queues the next tick for the next multiple of
the update rate. The rate is 500 ms,
or one minute in mute mode. The engine also keeps a time-zone receiver
registered while visible. It stores the temperatures and icon that arrive on
the `/weather-info` data path, and `onDraw` paints a two-digit hour, a
blinking colon, the minutes and the weather from that state.

The model has four modules, one per concern of the engine:

- `TickTiming` (`tick_timing.dfy`): Java's truncating `%`, the two update
  rates, the tick delay `interval - (now % interval)`, and lemmas that, for a
  clock at or after the epoch, this delay reaches the first wall-clock
  boundary after `now`.
- `FaceText` (`face_text.dfy`): `String.format("%02d", n)` and the decimal
  reading that inverts it, the 0→12 hour mapping, and the colon predicate
  with its blink lemmas.
- `WeatherData` (`weather_data.dfy`): data events, the weather-update guard,
  and specification functions for a buffer of events (the last update, the
  number of updates, the weather after the walk).
- `WatchFace` (`engine.dfy`): the class `Service` holding the weather fields
  of `SunshineWearFace`, the class `Engine` with the engine's own fields, a
  reference to its service and one method per handler, the invariant
  `Valid()` they preserve, and `Draw`, which gives what `onDraw` paints.

The handler's message queue is the field `pending`, the sequence of delays
of the queued `MSG_UPDATE_TIME` messages. `invalidate()` is the counter
`redraws`. Registering with the system is the counter `systemReceivers`.
Starting a background icon decode is the counter `decodeStarts`. The
wall-clock reading and the calendar's `HOUR`/`MINUTE` fields are parameters.

The invariant `Engine.Valid()` holds before and after every handler. It says:

- at most one tick is queued;
- a tick is queued only while the face is visible and not ambient, and
  always then, until `onDestroy`;
- the update rate matches the mute mode;
- `mAmbient` equals the host's ambient flag;
- the time-zone receiver is registered exactly while visible, and then
  exactly once with the system.

Behaviours of the code worth noting:

- A change of mute mode restarts a running timer at once with an immediate
  tick (`setInteractiveUpdateRateMs` calls `updateTimer`). It does not wait
  for the next tick.
- `onDataChanged` assigns `mWeatherIcon = dataMap.getAsset(...)`. A weather
  update without an icon therefore clears the stored icon rather than
  keeping the previous one.
- A decode thread is started for every weather update, not only when the
  icon changed.
- The temperatures and the stored icon asset (`mWeatherIcon`) are fields
  of the service, not of the engine. An engine created later draws the
  temperatures an earlier one stored, and a data event received by any
  engine updates the temperature text all of them draw. The painted bitmap
  `mBitmap` is a field of each engine: only the receiving engine's own
  decode thread replaces it, and a new engine starts with the launcher icon.
- Before the epoch Java's `%` gives a remainder of at most zero, so the
  colon is drawn at every negative clock reading.

## Model

| member | source | states |
|---|---|---|
| TickTiming.JavaRem | wearable/src/main/java/com/example/android/sunshine/SunshineWearFace.java:543 | Java's `%` for a positive divisor: the remainder lies in `0..b-1` for a non-negative dividend and in `-(b-1)..0` for a negative one, and `a` minus it is a multiple of `b` |
| TickTiming.TickDelay | wearable/src/main/java/com/example/android/sunshine/SunshineWearFace.java:541-544 | the reschedule delay is at least 1 and `now + delay` is a multiple of the interval; it is at most one interval for `now >= 0`, and between one and two intervals before the epoch |
| TickTiming.TickDelayIsNextBoundary | wearable/src/main/java/com/example/android/sunshine/SunshineWearFace.java:541-544 | for `now >= 0` no shorter positive delay reaches a multiple of the interval, so the next tick is at the first boundary after `now` |
| TickTiming.TickTargetSharedWithinInterval | wearable/src/main/java/com/example/android/sunshine/SunshineWearFace.java:541-544 | two clock readings at or after the epoch within one interval reschedule to the same boundary (before the epoch Java's negative remainder can split them) |
| FaceText.FormatTwoDigitNumber | wearable/src/main/java/com/example/android/sunshine/SunshineWearFace.java:444-446 | `%02d` yields at least two characters; for `0..99` exactly the tens digit then the units digit; a leading `-` exactly for negative numbers; digits elsewhere |
| FaceText.FormatTwoDigitNumberRoundTrip | wearable/src/main/java/com/example/android/sunshine/SunshineWearFace.java:444-446 | reading the formatted text back as a signed decimal gives the number again, for every integer |
| FaceText.FormatTwoDigitNumberIsTwoDigits | wearable/src/main/java/com/example/android/sunshine/SunshineWearFace.java:488-489 | for `0..99`, e.g. a minute, the text is two decimal digits denoting the number |
| FaceText.DisplayHour | wearable/src/main/java/com/example/android/sunshine/SunshineWearFace.java:474-477 | for a calendar hour in `0..11` the shown hour lies in `1..12` and is congruent to it modulo 12 (so 0 shows as 12) |
| FaceText.HourTextIsTwoDigitHour | wearable/src/main/java/com/example/android/sunshine/SunshineWearFace.java:474-478 | the hour text is two digits denoting an hour in `1..12` congruent to the calendar hour modulo 12 |
| FaceText.ColonBoundaries | wearable/src/main/java/com/example/android/sunshine/SunshineWearFace.java:470 | in interactive unmuted mode the colon shows at 0 and 499 ms, hides at 500 and 999 ms, and shows again at 1000 ms |
| FaceText.ShouldDrawColons | wearable/src/main/java/com/example/android/sunshine/SunshineWearFace.java:470-483 | the colon is drawn in ambient mode, in mute mode, or when Java's `clock % 1000` is below 500; its meaning is stated by `ColonOnInEvenHalfSeconds` and `ColonAlwaysOnBeforeEpoch` |
| FaceText.ColonOnInEvenHalfSeconds | wearable/src/main/java/com/example/android/sunshine/SunshineWearFace.java:468-485 | for a clock at or after the epoch, interactive and unmuted, the colon is drawn exactly in the even half-seconds |
| FaceText.ColonFlipsEveryInteractiveTick | wearable/src/main/java/com/example/android/sunshine/SunshineWearFace.java:83-87 | at the 500 ms rate, consecutive tick times at or after the epoch (multiples of 500) show the colon in opposite states, so each tick blinks it |
| FaceText.ColonAlwaysOnBeforeEpoch | wearable/src/main/java/com/example/android/sunshine/SunshineWearFace.java:470 | for a negative clock reading Java's remainder is at most zero, so the colon is drawn whatever the half-second |
| FaceText.ColonBeforeEpochExample | wearable/src/main/java/com/example/android/sunshine/SunshineWearFace.java:470 | at -200 ms, an odd half-second, the colon is still drawn, so the even-half-second rule holds only from the epoch on |
| WeatherData.LastWeatherUpdate | wearable/src/main/java/com/example/android/sunshine/SunshineWearFace.java:550-554 | finds a changed event on `/weather-info` with no such event after it, and finds none exactly when the buffer holds none |
| WeatherData.IsWeatherUpdate | wearable/src/main/java/com/example/android/sunshine/SunshineWearFace.java:551-554 | the loop's guard: the event is of type changed and its item's path is `/weather-info` |
| WeatherData.CountWeatherUpdates | wearable/src/main/java/com/example/android/sunshine/SunshineWearFace.java:550-569 | the number of weather updates (each one redraws once and starts one decode) is at most the buffer length |
| WeatherData.NoUpdatesIffNoLast | wearable/src/main/java/com/example/android/sunshine/SunshineWearFace.java:550-569 | a buffer holds zero weather updates exactly when it has no last weather update |
| WeatherData.LatestWeatherIsLastUpdate | wearable/src/main/java/com/example/android/sunshine/SunshineWearFace.java:549-573 | walking the buffer ends with the data of the last weather update, or with the weather held before when there is none: the last update wins |
| WeatherData.LatestWeather | wearable/src/main/java/com/example/android/sunshine/SunshineWearFace.java:550-571 | the weather after the loop's field overwrites: each weather update replaces all three entries, other events keep them; `LatestWeatherIsLastUpdate` ties it to the last update |
| WeatherData.AppendIrrelevant | wearable/src/main/java/com/example/android/sunshine/SunshineWearFace.java:551-554 | one appended deletion or event on another path changes neither the last update, nor the count, nor the resulting weather |
| WeatherData.IrrelevantEventsIgnored | wearable/src/main/java/com/example/android/sunshine/SunshineWearFace.java:551-554 | appending deletions or events on other paths changes neither the last update, nor the count, nor the resulting weather |
| WeatherData.PrefixStep | wearable/src/main/java/com/example/android/sunshine/SunshineWearFace.java:550-571 | extending the walked prefix by one event adds one to the count and takes that event's data if it is a weather update, and changes neither otherwise |
| WatchFace.UpdateRateFor | wearable/src/main/java/com/example/android/sunshine/SunshineWearFace.java:392-394 | the chosen rate is positive and is the one-minute rate exactly in mute mode, slower than the interactive rate |
| WatchFace.Service.constructor | wearable/src/main/java/com/example/android/sunshine/SunshineWearFace.java:79-81 | a new service holds no temperatures and no icon (the three fields start null) |
| WatchFace.Engine.constructor | wearable/src/main/java/com/example/android/sunshine/SunshineWearFace.java:100-101 | `onCreateEngine`: a new engine of the given service is invisible, interactive and unmuted at the 500 ms rate (fields at :135-157), with no tick queued and no receiver registered; the service's weather is left as it is, so the engine sees what earlier engines stored |
| WatchFace.Engine.ShouldTimerBeRunning | wearable/src/main/java/com/example/android/sunshine/SunshineWearFace.java:531-533 | the timer should run exactly while visible and not ambient; `Valid()` keeps a tick queued exactly then |
| WatchFace.Engine.UpdateTimer | wearable/src/main/java/com/example/android/sunshine/SunshineWearFace.java:520-525 | after it exactly one immediate tick is queued if visible and not ambient, and none otherwise |
| WatchFace.Engine.RegisterReceiver | wearable/src/main/java/com/example/android/sunshine/SunshineWearFace.java:289-297 | afterwards the receiver is registered; the system gains a registration only if it was not registered before (idempotent) |
| WatchFace.Engine.UnregisterReceiver | wearable/src/main/java/com/example/android/sunshine/SunshineWearFace.java:299-305 | afterwards the receiver is unregistered; the system loses a registration only if it was registered (idempotent) |
| WatchFace.Engine.OnVisibilityChanged | wearable/src/main/java/com/example/android/sunshine/SunshineWearFace.java:259-282 | keeps `Valid()`; the receiver is registered iff now visible; a tick is queued iff visible and not ambient; becoming visible redraws once; nothing else changes |
| WatchFace.Engine.OnAmbientModeChanged | wearable/src/main/java/com/example/android/sunshine/SunshineWearFace.java:354-381 | keeps `Valid()`; both ambient flags take the new mode; a redraw only if the mode changed; a tick is queued iff visible and not ambient |
| WatchFace.Engine.SetInteractiveUpdateRateMs | wearable/src/main/java/com/example/android/sunshine/SunshineWearFace.java:409-419 | keeps the scheduler invariant; an unchanged rate changes nothing; a new rate is stored and restarts the timer with an immediate tick only if it should be running |
| WatchFace.Engine.OnInterruptionFilterChanged | wearable/src/main/java/com/example/android/sunshine/SunshineWearFace.java:389-407 | keeps `Valid()`; muted exactly for filter NONE; rate 60000 when muted, else 500; a redraw and a timer restart only when mute actually flips |
| WatchFace.Engine.HandleUpdateTimeMessage | wearable/src/main/java/com/example/android/sunshine/SunshineWearFace.java:538-546 | delivering the queued tick keeps `Valid()`, always redraws once, and queues exactly the next tick with delay `TickDelay(rate, now)` while the timer should run |
| WatchFace.Engine.OnTimeTick | wearable/src/main/java/com/example/android/sunshine/SunshineWearFace.java:347-351 | the host's minute tick redraws once |
| WatchFace.Engine.OnTapCommand | wearable/src/main/java/com/example/android/sunshine/SunshineWearFace.java:426-442 | a tap of any type redraws once |
| WatchFace.Engine.OnTimeZoneChanged | wearable/src/main/java/com/example/android/sunshine/SunshineWearFace.java:168-175 | a time-zone or locale broadcast reaches the engine only while registered, and redraws once |
| WatchFace.Engine.OnDestroy | wearable/src/main/java/com/example/android/sunshine/SunshineWearFace.java:241-244 | keeps `Valid()` and leaves no tick queued |
| WatchFace.Engine.HandleDataEvent | wearable/src/main/java/com/example/android/sunshine/SunshineWearFace.java:551-570 | a weather update replaces both temperatures and the icon with its own entries, starts one decode and redraws once; any other event changes nothing |
| WatchFace.Engine.OnDataChanged | wearable/src/main/java/com/example/android/sunshine/SunshineWearFace.java:549-573 | keeps `Valid()`; the weather is that of the last weather update in the buffer, or unchanged if there is none; one redraw and one decode per weather update |
| WatchFace.Engine.Draw | wearable/src/main/java/com/example/android/sunshine/SunshineWearFace.java:449-513 | black background iff ambient; two-digit hour in `1..12` matching the calendar modulo 12; two-digit minute; colon always on in ambient or mute, else in even half-seconds from the epoch on, and always on before the epoch; date unless a card peeks; weather text iff the service holds both temperatures; the icon branch taken iff weather text and not `mAmbient` |

## Left out

- The GoogleApiClient connection (`connect`, `disconnect`, adding and removing the data listener, the connection callbacks, SunshineWearFace.java:263, 273-276, 597-618) is platform I/O. Only the visibility transition around it is modelled.
- The background bitmap thread and `loadBitmapFromAsset` (SunshineWearFace.java:560-566, 575-595) are concurrency plus blocking network I/O. The model counts the decodes started (`decodeStarts`). It does not model the decoded bitmap `mBitmap`, the thread reading `mWeatherIcon` only when it runs, or the `IllegalArgumentException` thrown for a missing icon. `Draw` says only whether the icon branch is taken.
- WatchFace.Engine.Draw: `iconDrawn` means the branch at SunshineWearFace.java:507 is taken. It does not say that a bitmap is actually painted there. `loadBitmapFromAsset` returns null when the connection fails (:581-583) or the asset stream is null (:589-592), and `BitmapFactory.decodeStream` may return null (:594); the thread then stores null in `mBitmap` (:563). From then on every `onDraw` with both temperatures set and `!mAmbient` throws a `NullPointerException` at `mBitmap.getHeight()` (:508). The model has no null-bitmap state.
- The `current_time` entry read by `onDataChanged` (SunshineWearFace.java:556) is never used, so it is not part of the data map.
- Paint colours, alpha, anti-aliasing, typefaces, low-bit ambient and burn-in protection (SunshineWearFace.java:194-256, 335-345, 357-374, 383-386, 398-404) are cosmetic. Only the redraws these handlers request are modelled.
- Drawing geometry, text measurement and bitmap scaling (SunshineWearFace.java:307-333 and the coordinates in 449-513) are floating-point layout.
- The toast shown by the tap handler (SunshineWearFace.java:437-438) is platform UI; only the tap's redraw is modelled.
- `Calendar`, time zones, `SimpleDateFormat` and the date text (SunshineWearFace.java:168-175, 284-287, 465-466, 494-497) are platform formatting. The calendar's `HOUR` and `MINUTE` fields are inputs to `Draw`, and only whether the date is drawn is modelled.
- `onCreate` (SunshineWearFace.java:193-238) builds paints, the calendar and the date format, and sets the watch face style (:198-203). The style is platform configuration that the model takes as given: the variable card peek mode makes `getPeekCardPosition()` meaningful, and `setAcceptsTapEvents(true)` is what lets `onTapCommand` be called at all.
- When a queued tick fires is not modelled, because the handler's clock is platform behaviour. A queued tick is its delay, and delivery is a call to `HandleUpdateTimeMessage` with the clock reading.
- FaceText.FormatTwoDigitNumber: assumes a locale whose zero digit is `'0'`. `String.format` uses the default locale (SunshineWearFace.java:445), and a locale with other digits, such as Arabic-Indic, would print those instead.
- Java `long` overflow in the clock arithmetic is not modelled; wall-clock milliseconds and the two rates are far from the 64-bit range.
- The phone-side sender (app/src/main/java/com/example/android/sunshine/utilities/SunshineWearFaceUtils.java) publishes on `/current-info` with different keys, so the watch face never reads its items. It is not part of this model.
