/** One iteration of the device monitor's polling loop (`start_monitoring`),
    taken out of the loop: the device remembered from the previous scan and
    the outcome of this scan give the event to emit and the device to
    remember next. The thread, the two-second sleep, the mutex and the
    scanner itself are not modelled; the scan outcome and whether Tauri's
    `emit` fails are inputs. */
module Monitor {
  import opened Wrappers
  import opened Models

  datatype Event = DeviceDetected(device: KoboDevice) | DeviceDisconnected

  /** The result of one iteration: the event the loop tries to emit, whether
      the emit went through, and the device remembered afterwards. */
  datatype Tick = Tick(event: Option<Event>, delivered: bool, last: Option<KoboDevice>)

  /** Two scans see the same device when path and serial number agree; the
      name and the validity flag are not compared. */
  predicate SameDevice(a: KoboDevice, b: KoboDevice) {
    a.path == b.path && a.serial_number == b.serial_number
  }

  /** The match on (last, current). A failed emit is only logged. */
  function Step(last: Option<KoboDevice>, scan: Result<Option<KoboDevice>, string>, emitFails: bool): (t: Tick)
    ensures t.delivered <==> t.event.Some? && !emitFails
    ensures scan.Err? ==> t.event.None? && t.last == last
    ensures scan == Ok(None) && last.None? ==> t.event.None? && t.last.None?
    ensures scan.Ok? && scan.value.Some? && last.None? ==>
      t.event == Some(DeviceDetected(scan.value.value)) && t.last == scan.value
    ensures scan == Ok(None) && last.Some? ==>
      t.event == Some(DeviceDisconnected) && t.last.None?
    ensures scan.Ok? && scan.value.Some? && last.Some? && !SameDevice(last.value, scan.value.value) ==>
      t.event == Some(DeviceDetected(scan.value.value)) && t.last == scan.value
    ensures scan.Ok? && scan.value.Some? && last.Some? && SameDevice(last.value, scan.value.value) ==>
      t.event.None? && t.last == last
  {
    match scan
    case Err(_) => Tick(None, false, last)
    case Ok(current) =>
      match (last, current)
      case (None, Some(d)) => Tick(Some(DeviceDetected(d)), !emitFails, Some(d))
      case (Some(_), None) => Tick(Some(DeviceDisconnected), !emitFails, None)
      case (Some(l), Some(c)) =>
        if l.path != c.path || l.serial_number != c.serial_number then
          Tick(Some(DeviceDetected(c)), !emitFails, Some(c))
        else
          Tick(None, false, last)
      case (None, None) => Tick(None, false, None)
  }

  /** After a successful scan the remembered device is the one seen, up to
      `SameDevice`; a failed scan keeps the old one. */
  lemma StepTracksScan(last: Option<KoboDevice>, scan: Result<Option<KoboDevice>, string>, emitFails: bool)
    requires scan.Ok?
    ensures var t := Step(last, scan, emitFails);
      (t.last.None? <==> scan.value.None?) &&
      (t.last.Some? ==> SameDevice(t.last.value, scan.value.value))
  {
  }

  /** Whether the emit fails changes nothing but `delivered`. */
  lemma StepIgnoresEmitFailure(last: Option<KoboDevice>, scan: Result<Option<KoboDevice>, string>)
    ensures Step(last, scan, true).event == Step(last, scan, false).event
    ensures Step(last, scan, true).last == Step(last, scan, false).last
  {
  }

  datatype Trace = Trace(last: Option<KoboDevice>, events: seq<Event>)

  /** The loop over a sequence of scan outcomes, collecting the events it
      tries to emit; `emitFails(i)` says whether the i-th emit fails. */
  function Run(start: Option<KoboDevice>, scans: seq<Result<Option<KoboDevice>, string>>,
               emitFails: nat -> bool): (tr: Trace)
    ensures scans == [] ==> tr == Trace(start, [])
  {
    if |scans| == 0 then Trace(start, [])
    else
      var before := Run(start, scans[..|scans| - 1], emitFails);
      var t := Step(before.last, scans[|scans| - 1], emitFails(|scans| - 1));
      Trace(t.last, before.events + (if t.event.Some? then [t.event.value] else []))
  }

  /** What the frontend was last told matches what the monitor remembers:
      starting with no device, a remembered device is the one in the most
      recent event, and no remembered device means no event yet or a
      disconnect most recently. */
  lemma {:induction false} RunRemembersLastEvent(scans: seq<Result<Option<KoboDevice>, string>>,
                                                 emitFails: nat -> bool)
    ensures var tr := Run(None, scans, emitFails);
      (tr.last.Some? ==> |tr.events| > 0 && tr.events[|tr.events| - 1] == DeviceDetected(tr.last.value)) &&
      (tr.last.None? ==> |tr.events| == 0 || tr.events[|tr.events| - 1] == DeviceDisconnected)
    decreases |scans|
  {
    if |scans| > 0 {
      RunRemembersLastEvent(scans[..|scans| - 1], emitFails);
    }
  }

  /** Starting with no device, a disconnect is never reported twice in a
      row, and every disconnect follows a detection. */
  lemma {:induction false} NoRepeatedDisconnect(scans: seq<Result<Option<KoboDevice>, string>>,
                                                emitFails: nat -> bool)
    ensures var ev := Run(None, scans, emitFails).events;
      (|ev| > 0 ==> ev[0].DeviceDetected?) &&
      forall i :: 0 <= i < |ev| - 1 && ev[i] == DeviceDisconnected ==> ev[i + 1].DeviceDetected?
    decreases |scans|
  {
    if |scans| > 0 {
      var pre := scans[..|scans| - 1];
      NoRepeatedDisconnect(pre, emitFails);
      RunRemembersLastEvent(pre, emitFails);
    }
  }
}
