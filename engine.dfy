/**
 * The watch face engine (`SunshineWearFace.Engine`): its display modes, the
 * redraw timer driven by `MSG_UPDATE_TIME` messages, the time-zone receiver
 * registration, the weather fields fed by the data layer, and what `onDraw`
 * paints from them. Every handler runs on the UI thread, one at a time.
 */
module WatchFace {
  import opened TickTiming
  import opened FaceText
  import opened WeatherData

  /** `WatchFaceService.INTERRUPTION_FILTER_NONE`: the user muted everything. */
  const InterruptionFilterNone: int := 3

  /**
   * The update rate the face asks for in and out of mute mode: positive,
   * and the slow minute-long rate exactly in mute mode, so the rate alone
   * tells the two modes apart.
   */
  function UpdateRateFor(inMuteMode: bool): (rate: int)
    ensures rate > 0
    ensures rate == MuteUpdateRateMs <==> inMuteMode
    ensures inMuteMode ==> rate > NormalUpdateRateMs
  {
    if inMuteMode then MuteUpdateRateMs else NormalUpdateRateMs
  }

  /** The two temperature strings as `onDraw` paints them side by side. */
  datatype WeatherText = WeatherText(maxTemp: string, minTemp: string)

  /** What one call of `onDraw` paints. */
  datatype Frame = Frame(
    blackBackground: bool,        // plain black in ambient mode, else background colour and divider
    hourText: string,
    colonDrawn: bool,
    minuteText: string,
    dateDrawn: bool,              // the date line, hidden under a peeking card
    weather: Option<WeatherText>,
    iconDrawn: bool)              // the icon branch of `onDraw` is taken

  /**
   * The watch-face service (`SunshineWearFace`). It owns the weather that
   * the data layer delivers; every engine it creates reads and writes these
   * same three fields.
   */
  class Service {
    var maxTemp: Option<string>
    var minTemp: Option<string>
    var weatherIcon: Option<Asset>

    /** The stored weather as one data-map value. */
    function Weather(): WeatherMap
      reads this`maxTemp, this`minTemp, this`weatherIcon
    {
      WeatherMap(maxTemp, minTemp, weatherIcon)
    }

    /** A new service has received no weather yet. */
    constructor ()
      ensures maxTemp == None && minTemp == None && weatherIcon == None
    {
      maxTemp, minTemp, weatherIcon := None, None, None;
    }
  }

  class Engine {
    /** The service that created this engine (the enclosing `SunshineWearFace`). */
    const service: Service
    /** The host's `isVisible()`. */
    var visible: bool
    /** The host's `isInAmbientMode()`. */
    var ambient: bool
    /** The engine's own copy of the ambient flag (`mAmbient`). */
    var engineAmbient: bool
    var mute: bool
    var interactiveUpdateRateMs: int
    var registeredTimeZoneReceiver: bool
    /** How many registrations of the time-zone receiver the system currently holds. */
    var systemReceivers: int
    /** The delays of the `MSG_UPDATE_TIME` messages queued on the update handler. */
    var pending: seq<int>
    /** How many times the face has called `invalidate()`. */
    var redraws: nat
    /** How many background icon decodes the face has started. */
    var decodeStarts: nat
    /** Whether `onDestroy` has run. */
    ghost var destroyed: bool

    /** The timer should run only while visible and interactive. */
    predicate ShouldTimerBeRunning()
      reads this`visible, this`ambient
    {
      visible && !ambient
    }

    /**
     * The scheduler's invariant: at most one tick is queued, one is queued
     * exactly while the timer should run (until the engine is destroyed),
     * and its delay is never negative nor longer than two update periods.
     */
    ghost predicate TimerValid()
      reads this`visible, this`ambient, this`interactiveUpdateRateMs, this`pending, this`destroyed
    {
      && interactiveUpdateRateMs > 0
      && |pending| <= 1
      && (pending != [] ==> ShouldTimerBeRunning())
      && (ShouldTimerBeRunning() && !destroyed ==> pending != [])
      && (pending != [] ==> 0 <= pending[0] < 2 * interactiveUpdateRateMs)
    }

    /**
     * The engine's invariant: the scheduler's, the rate matches the mute
     * mode, `mAmbient` mirrors the host's ambient flag, and the time-zone
     * receiver is registered with the system exactly once while visible and
     * not at all otherwise.
     */
    ghost predicate Valid()
      reads this`visible, this`ambient, this`interactiveUpdateRateMs, this`pending, this`destroyed
      reads this`mute, this`engineAmbient, this`registeredTimeZoneReceiver, this`systemReceivers
    {
      && TimerValid()
      && interactiveUpdateRateMs == UpdateRateFor(mute)
      && engineAmbient == ambient
      && registeredTimeZoneReceiver == visible
      && systemReceivers == (if registeredTimeZoneReceiver then 1 else 0)
    }

    /**
     * `onCreateEngine`: a new engine of `owner`, invisible, interactive,
     * unmuted, with no tick queued; it sees whatever weather the service
     * already holds, which it leaves untouched.
     */
    constructor (owner: Service)
      ensures Valid() && !destroyed && service == owner
      ensures !visible && !ambient && !mute && interactiveUpdateRateMs == NormalUpdateRateMs
      ensures !registeredTimeZoneReceiver && systemReceivers == 0
      ensures pending == [] && redraws == 0 && decodeStarts == 0
    {
      service := owner;
      visible, ambient, engineAmbient, mute := false, false, false, false;
      interactiveUpdateRateMs := NormalUpdateRateMs;
      registeredTimeZoneReceiver, systemReceivers := false, 0;
      pending, redraws := [], 0;
      decodeStarts := 0;
      destroyed := false;
    }

    /**
     * `updateTimer`: drop any queued tick, then queue an immediate one if
     * the timer should run.
     */
    method UpdateTimer()
      modifies this`pending
      ensures pending == if ShouldTimerBeRunning() then [0] else []
    {
      pending := [];
      if ShouldTimerBeRunning() {
        pending := pending + [0];
      }
    }

    /** `registerReceiver`: registers with the system only if not registered yet. */
    method RegisterReceiver()
      modifies this`registeredTimeZoneReceiver, this`systemReceivers
      ensures registeredTimeZoneReceiver
      ensures systemReceivers == old(systemReceivers) + (if old(registeredTimeZoneReceiver) then 0 else 1)
    {
      if registeredTimeZoneReceiver {
        return;
      }
      registeredTimeZoneReceiver := true;
      systemReceivers := systemReceivers + 1;
    }

    /** `unregisterReceiver`: unregisters from the system only if registered. */
    method UnregisterReceiver()
      modifies this`registeredTimeZoneReceiver, this`systemReceivers
      ensures !registeredTimeZoneReceiver
      ensures systemReceivers == old(systemReceivers) - (if old(registeredTimeZoneReceiver) then 1 else 0)
    {
      if !registeredTimeZoneReceiver {
        return;
      }
      registeredTimeZoneReceiver := false;
      systemReceivers := systemReceivers - 1;
    }

    /**
     * `onVisibilityChanged`: becoming visible registers the time-zone
     * receiver and redraws, becoming invisible unregisters it; either way
     * the timer is reconciled, so a tick is queued iff visible and not
     * ambient.
     */
    method OnVisibilityChanged(nowVisible: bool)
      requires Valid()
      modifies this
      ensures Valid()
      ensures visible == nowVisible && registeredTimeZoneReceiver == nowVisible
      ensures pending == if nowVisible && !ambient then [0] else []
      ensures redraws == old(redraws) + (if nowVisible then 1 else 0)
      ensures ambient == old(ambient) && engineAmbient == old(engineAmbient) && mute == old(mute)
      ensures interactiveUpdateRateMs == old(interactiveUpdateRateMs) && destroyed == old(destroyed)
      ensures service.Weather() == old(service.Weather())
      ensures decodeStarts == old(decodeStarts)
    {
      visible := nowVisible;
      if nowVisible {
        RegisterReceiver();
        redraws := redraws + 1;
      } else {
        UnregisterReceiver();
      }
      UpdateTimer();
    }

    /**
     * `onAmbientModeChanged`: the host's flag takes the new mode; the
     * engine's copy follows and a redraw is requested only when the mode
     * actually changed; then the timer is reconciled, so a tick is queued
     * iff visible and not ambient.
     */
    method OnAmbientModeChanged(inAmbientMode: bool)
      requires Valid()
      modifies this
      ensures Valid()
      ensures ambient == inAmbientMode && engineAmbient == inAmbientMode
      ensures pending == if visible && !inAmbientMode then [0] else []
      ensures redraws == old(redraws) + (if old(ambient) != inAmbientMode then 1 else 0)
      ensures visible == old(visible) && mute == old(mute) && destroyed == old(destroyed)
      ensures interactiveUpdateRateMs == old(interactiveUpdateRateMs)
      ensures registeredTimeZoneReceiver == old(registeredTimeZoneReceiver)
      ensures systemReceivers == old(systemReceivers)
      ensures service.Weather() == old(service.Weather())
      ensures decodeStarts == old(decodeStarts)
    {
      ambient := inAmbientMode;
      if engineAmbient != inAmbientMode {
        engineAmbient := inAmbientMode;
        redraws := redraws + 1;
      }
      UpdateTimer();
    }

    /**
     * `setInteractiveUpdateRateMs`: nothing happens when the rate is
     * unchanged; otherwise the rate is stored and, if the timer should be
     * running, it is restarted at once with an immediate tick.
     */
    method SetInteractiveUpdateRateMs(updateRateMs: int)
      requires TimerValid() && updateRateMs > 0
      modifies this`interactiveUpdateRateMs, this`pending
      ensures TimerValid()
      ensures interactiveUpdateRateMs == updateRateMs
      ensures pending ==
        if updateRateMs != old(interactiveUpdateRateMs) && ShouldTimerBeRunning() then [0] else old(pending)
    {
      if updateRateMs == interactiveUpdateRateMs {
        return;
      }
      interactiveUpdateRateMs := updateRateMs;
      if ShouldTimerBeRunning() {
        UpdateTimer();
      }
    }

    /**
     * `onInterruptionFilterChanged`: the face is muted exactly when the
     * filter is NONE; the rate follows (restarting a running timer when it
     * changes), and the mute flag and a redraw change only when the mute
     * mode actually flips.
     */
    method OnInterruptionFilterChanged(interruptionFilter: int)
      requires Valid()
      modifies this
      ensures Valid()
      ensures mute == (interruptionFilter == InterruptionFilterNone)
      ensures interactiveUpdateRateMs == (if mute then MuteUpdateRateMs else NormalUpdateRateMs)
      ensures redraws == old(redraws) + (if old(mute) != mute then 1 else 0)
      ensures pending == if old(mute) != mute && ShouldTimerBeRunning() then [0] else old(pending)
      ensures visible == old(visible) && ambient == old(ambient) && engineAmbient == old(engineAmbient)
      ensures registeredTimeZoneReceiver == old(registeredTimeZoneReceiver) && destroyed == old(destroyed)
      ensures systemReceivers == old(systemReceivers)
      ensures service.Weather() == old(service.Weather())
      ensures decodeStarts == old(decodeStarts)
    {
      var inMuteMode := interruptionFilter == InterruptionFilterNone;
      SetInteractiveUpdateRateMs(UpdateRateFor(inMuteMode));
      if mute != inMuteMode {
        mute := inMuteMode;
        redraws := redraws + 1;
      }
    }

    /**
     * Delivery of the queued `MSG_UPDATE_TIME` at wall-clock time `nowMs`
     * (`handleUpdateTimeMessage`): the handler takes the message off the
     * queue, the face redraws, and, if the timer should still run, the next
     * tick is queued for the next multiple of the update rate.
     */
    method HandleUpdateTimeMessage(nowMs: int)
      requires Valid() && pending != []
      modifies this`pending, this`redraws
      ensures Valid()
      ensures redraws == old(redraws) + 1
      ensures pending == if ShouldTimerBeRunning() then [TickDelay(interactiveUpdateRateMs, nowMs)] else []
    {
      pending := pending[1..];
      redraws := redraws + 1;
      if ShouldTimerBeRunning() {
        var delayMs := TickDelay(interactiveUpdateRateMs, nowMs);
        pending := pending + [delayMs];
      }
    }

    /** `onTimeTick`: the host's once-a-minute tick redraws the face. */
    method OnTimeTick()
      modifies this`redraws
      ensures redraws == old(redraws) + 1
    {
      redraws := redraws + 1;
    }

    /** `onTapCommand`: whatever the tap type, the face redraws (the toast is not modelled). */
    method OnTapCommand(tapType: int)
      modifies this`redraws
      ensures redraws == old(redraws) + 1
    {
      redraws := redraws + 1;
    }

    /** The time-zone receiver's `onReceive`: delivered only while registered; it redraws. */
    method OnTimeZoneChanged()
      requires registeredTimeZoneReceiver
      modifies this`redraws
      ensures redraws == old(redraws) + 1
    {
      redraws := redraws + 1;
    }

    /** `onDestroy`: drops any queued tick; none is queued afterwards. */
    method OnDestroy()
      requires Valid()
      modifies this`pending, this`destroyed
      ensures Valid() && destroyed
      ensures pending == []
    {
      pending := [];
      destroyed := true;
    }

    /**
     * One pass of the loop in `onDataChanged`: a weather update overwrites
     * both temperatures and the icon with its own entries (absent ones
     * become null), starts an icon decode for the new icon and redraws;
     * any other event changes nothing.
     */
    method HandleDataEvent(event: DataEvent)
      modifies service`maxTemp, service`minTemp, service`weatherIcon, this`redraws, this`decodeStarts
      ensures service.Weather() == if IsWeatherUpdate(event) then event.data else old(service.Weather())
      ensures redraws == old(redraws) + (if IsWeatherUpdate(event) then 1 else 0)
      ensures decodeStarts == old(decodeStarts) + (if IsWeatherUpdate(event) then 1 else 0)
    {
      if event.kind == Changed {
        if event.path == WeatherPath {
          service.maxTemp := event.data.maxTemp;
          service.minTemp := event.data.minTemp;
          service.weatherIcon := event.data.icon;
          decodeStarts := decodeStarts + 1;
          redraws := redraws + 1;
        }
      }
    }

    /**
     * `onDataChanged`: walks the buffer; every weather update overwrites
     * both temperatures and the icon with its own entries (absent ones
     * become null), starts an icon decode and redraws; other events are
     * skipped. So the last weather update in the buffer wins, and a buffer
     * without one changes nothing.
     */
    method OnDataChanged(events: seq<DataEvent>)
      requires Valid()
      modifies service`maxTemp, service`minTemp, service`weatherIcon, this`redraws, this`decodeStarts
      ensures Valid()
      ensures service.Weather() == LatestWeather(events, old(service.Weather()))
      ensures LastWeatherUpdate(events).None? ==> service.Weather() == old(service.Weather())
      ensures LastWeatherUpdate(events).Some? ==> service.Weather() == events[LastWeatherUpdate(events).value].data
      ensures redraws == old(redraws) + CountWeatherUpdates(events)
      ensures decodeStarts == old(decodeStarts) + CountWeatherUpdates(events)
    {
      ghost var before := service.Weather();
      var i := 0;
      while i < |events|
        invariant 0 <= i <= |events|
        invariant service.Weather() == LatestWeather(events[..i], before)
        invariant redraws == old(redraws) + CountWeatherUpdates(events[..i])
        invariant decodeStarts == old(decodeStarts) + CountWeatherUpdates(events[..i])
      {
        PrefixStep(events, i, before);
        HandleDataEvent(events[i]);
        i := i + 1;
      }
      assert events[..|events|] == events;
      LatestWeatherIsLastUpdate(events, before);
    }

    /**
     * `onDraw` at a clock reading `colonClockMs` (the second reading that
     * decides the colon), for the calendar's `HOUR` and `MINUTE` fields and
     * whether a notification card is peeking. The hour shows as two digits
     * reading 1..12 and agreeing with the calendar modulo 12, the minute as
     * its two digits; the colon is always on in ambient or mute mode and
     * otherwise on in even half-seconds; the weather text needs both
     * temperatures, the icon additionally needs interactive mode.
     */
    function Draw(colonClockMs: int, calendarHour: int, calendarMinute: int, peekCardEmpty: bool): (f: Frame)
      reads this, service
      ensures f.blackBackground == ambient
      ensures 0 <= calendarHour < 12 ==>
        IsTwoDigitText(f.hourText) && 1 <= TwoDigitValue(f.hourText) <= 12 && TwoDigitValue(f.hourText) % 12 == calendarHour
      ensures 0 <= calendarMinute < 60 ==> IsTwoDigitText(f.minuteText) && TwoDigitValue(f.minuteText) == calendarMinute
      ensures ambient || mute ==> f.colonDrawn
      ensures !ambient && !mute && colonClockMs >= 0 ==> (f.colonDrawn <==> (colonClockMs / 500) % 2 == 0)
      ensures colonClockMs < 0 ==> f.colonDrawn
      ensures f.dateDrawn == peekCardEmpty
      ensures f.weather.Some? <==> service.maxTemp.Some? && service.minTemp.Some?
      ensures f.weather.Some? ==> f.weather.value == WeatherText(service.maxTemp.value, service.minTemp.value)
      ensures f.iconDrawn <==> f.weather.Some? && !engineAmbient
    {
      var w := service.Weather();
      var weather := if w.maxTemp.Some? && w.minTemp.Some? then Some(WeatherText(w.maxTemp.value, w.minTemp.value)) else None;
      var f := Frame(
        ambient,
        FormatTwoDigitNumber(DisplayHour(calendarHour)),
        ShouldDrawColons(ambient, mute, colonClockMs),
        FormatTwoDigitNumber(calendarMinute),
        peekCardEmpty,
        weather,
        weather.Some? && !engineAmbient);
      ClockTextFacts(colonClockMs, calendarHour, calendarMinute);
      f
    }
  }

  /** The clock text and colon facts `Draw` promises, for whichever inputs are in range. */
  lemma ClockTextFacts(colonClockMs: int, calendarHour: int, calendarMinute: int)
    ensures 0 <= calendarHour < 12 ==>
      var hourText := FormatTwoDigitNumber(DisplayHour(calendarHour));
      IsTwoDigitText(hourText) && 1 <= TwoDigitValue(hourText) <= 12 && TwoDigitValue(hourText) % 12 == calendarHour
    ensures 0 <= calendarMinute < 60 ==>
      IsTwoDigitText(FormatTwoDigitNumber(calendarMinute))
      && TwoDigitValue(FormatTwoDigitNumber(calendarMinute)) == calendarMinute
    ensures colonClockMs >= 0 ==> (ShouldDrawColons(false, false, colonClockMs) <==> (colonClockMs / 500) % 2 == 0)
    ensures colonClockMs < 0 ==> ShouldDrawColons(false, false, colonClockMs)
  {
    if 0 <= calendarHour < 12 {
      HourTextIsTwoDigitHour(calendarHour);
    }
    if 0 <= calendarMinute < 60 {
      FormatTwoDigitNumberIsTwoDigits(calendarMinute);
    }
    if colonClockMs >= 0 {
      ColonOnInEvenHalfSeconds(colonClockMs);
    } else {
      ColonAlwaysOnBeforeEpoch(colonClockMs);
    }
  }

  /**
   * A run of the redraw scheduler: the timer is started by becoming
   * visible, rescheduled by each tick to the next boundary, restarted at
   * once by a mute change, stopped by ambient mode and torn down by
   * destruction.
   */
  method TimerScenario()
  {
    var service := new Service();
    var e := new Engine(service);
    e.OnVisibilityChanged(true);
    assert e.pending == [0] && e.systemReceivers == 1;
    e.HandleUpdateTimeMessage(1234);
    assert e.pending == [266];
    e.OnInterruptionFilterChanged(InterruptionFilterNone);
    assert e.pending == [0] && e.interactiveUpdateRateMs == 60000;
    e.HandleUpdateTimeMessage(1234);
    assert e.pending == [58766];
    e.OnAmbientModeChanged(true);
    assert e.pending == [];
    e.OnAmbientModeChanged(false);
    assert e.pending == [0];
    e.OnDestroy();
    assert e.pending == [];
  }

  /**
   * A run of the data listener: a weather update sets both temperatures
   * and the icon, and a later update without an icon clears the icon,
   * while an item on another path is ignored. The weather lives in the
   * service, so an engine created afterwards draws it at once.
   */
  method WeatherScenario()
  {
    var service := new Service();
    var e := new Engine(service);
    var iconA := Asset("A");
    var first := DataEvent(Changed, WeatherPath, WeatherMap(Some("72"), Some("54"), Some(iconA)));
    var second := DataEvent(Changed, WeatherPath, WeatherMap(Some("70"), Some("50"), None));
    var elsewhere := DataEvent(Changed, "/current-info", WeatherMap(Some("0"), Some("0"), None));
    e.OnDataChanged([first]);
    assert service.weatherIcon == Some(iconA) && service.maxTemp == Some("72");
    e.OnDataChanged([second, elsewhere]);
    assert service.maxTemp == Some("70") && service.minTemp == Some("50") && service.weatherIcon == None;
    var later := new Engine(service);
    assert later.Draw(0, 3, 15, true).weather == Some(WeatherText("70", "50"));
  }
}
