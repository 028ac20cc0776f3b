/** The frame context and run_clock: one blank frame per render, pushed to the device
    once, and a render only when the observed second changes. The wall clock becomes
    a finite sequence of events. */
module ClockLoop {
  import opened Wrappers
  import opened TimeFormat
  import opened Raster
  import opened Emulator

  /** Pixel (x, y) of the frame drawn for time t: a blank frame with
      draw_time_string(format_time(t), y_offset=0) applied to it. */
  predicate FrameLit(t: Time, x: int, y: int)
    requires ValidTime(t)
  {
    TextLit(FormatTime(t), 0, x, y)
  }

  /** Every LED of the device shows the frame for time t. */
  ghost predicate ShowsTime(device: TkinterEmulator, t: Time)
    reads device, device.leds
    requires device.Valid() && ValidTime(t)
  {
    forall y, x :: 0 <= y < device.height && 0 <= x < device.width ==>
      device.leds[y, x] == device.Fill(FrameLit(t, x, y))
  }

  /** One `with canvas(device) as draw: draw_time_string(draw, format_time(now))`:
      a fresh all-off frame of the device's size, the time drawn on it, and a single
      push to display when the block ends. */
  method RenderFrame(device: TkinterEmulator, t: Time) returns (ok: bool)
    requires device.Valid() && ValidTime(t)
    modifies device.leds
    ensures ok == device.running
    ensures ok ==> ShowsTime(device, t)
    ensures !ok ==> unchanged(device.leds)
  {
    var frame := new bool[device.width, device.height]((x, y) => false);
    DrawTimeString(frame, FormatTime(t), 0);
    ok := device.Display(frame);
  }

  /** What the loop observes between two sleeps: a clock reading, the user closing the
      emulator window, or a keyboard interrupt. */
  datatype Event = Poll(now: Time) | WindowClosed | Interrupted

  /** The loop's state: last_second, whether the device runs, the frames pushed so far,
      the time of the latest one, and whether the loop has stopped. */
  datatype LoopState = LoopState(lastSecond: int, running: bool, renders: nat, shown: Option<Time>, stopped: bool)

  /** Before the first poll: last_second is the sentinel -1. */
  function Start(running: bool): LoopState {
    LoopState(-1, running, 0, None, false)
  }

  /** One iteration of run_clock. A poll whose second differs from last_second renders;
      the render fails, and the loop stops, once the window is closed. */
  function Next(s: LoopState, e: Event): (r: LoopState)
    ensures s.stopped ==> r == s
    ensures r.running ==> s.running
    ensures r.renders == s.renders || r.renders == s.renders + 1
    ensures r.renders == s.renders + 1 <==>
      !s.stopped && s.running && e.Poll? && e.now.second != s.lastSecond
    ensures r.renders == s.renders + 1 ==> r.shown == Some(e.now) && r.lastSecond == e.now.second
    ensures r.renders == s.renders ==> r.shown == s.shown
    ensures !s.stopped && !s.running && e.Poll? && e.now.second != s.lastSecond ==> r.stopped
    ensures !s.stopped && e.Interrupted? ==> r.stopped
  {
    if s.stopped then s
    else match e
      case Poll(now) =>
        if now.second == s.lastSecond then s
        else if s.running then s.(lastSecond := now.second, renders := s.renders + 1, shown := Some(now))
        else s.(lastSecond := now.second, stopped := true)
      case WindowClosed => s.(running := false)
      case Interrupted => s.(stopped := true)
  }

  /** The loop's state after the events, from a device that runs or not. */
  function Run(events: seq<Event>, running: bool): (s: LoopState)
    ensures s.renders == 0 <==> s.shown.None?
    ensures s.shown.Some? ==> Poll(s.shown.value) in events
    ensures s.running ==> running
  {
    if events == [] then Start(running)
    else
      var p := events[..|events| - 1];
      assert forall e :: e in p ==> e in events;
      Next(Run(p, running), events[|events| - 1])
  }

  predicate ValidEvents(events: seq<Event>) {
    forall i :: 0 <= i < |events| && events[i].Poll? ==> ValidTime(events[i].now)
  }

  /** run_clock over a finite sequence of events: renders a frame whenever the second
      changes, and returns when the device reports the window closed or on an
      interrupt. Its results and the device's final state are those of Run. */
  method RunClock(device: TkinterEmulator, events: seq<Event>) returns (renders: nat, stopped: bool)
    requires device.Valid() && ValidEvents(events)
    modifies device, device.leds
    ensures device.Valid() && device.ledColor == old(device.ledColor)
    ensures renders == Run(events, old(device.running)).renders
    ensures stopped == Run(events, old(device.running)).stopped
    ensures device.running == Run(events, old(device.running)).running
    ensures Run(events, old(device.running)).shown.None? ==> unchanged(device.leds)
    ensures Run(events, old(device.running)).shown.Some? ==>
      ShowsTime(device, Run(events, old(device.running)).shown.value)
  {
    var lastSecond := -1;
    renders, stopped := 0, false;
    ghost var shown: Option<Time> := None;
    ghost var running0 := device.running;
    var i := 0;
    while i < |events| && !stopped
      invariant 0 <= i <= |events|
      invariant device.Valid() && device.ledColor == old(device.ledColor)
      invariant Run(events[..i], running0) == LoopState(lastSecond, device.running, renders, shown, stopped)
      invariant shown.Some? ==> ValidTime(shown.value) && ShowsTime(device, shown.value)
      invariant shown.None? ==> unchanged(device.leds)
      decreases |events| - i
    {
      assert events[..i + 1][..i] == events[..i];
      match events[i] {
      case Poll(now) =>
        if now.second != lastSecond {
          lastSecond := now.second;
          var ok := RenderFrame(device, now);
          if ok {
            renders := renders + 1;
            shown := Some(now);
          } else {
            stopped := true;
          }
        }
      case WindowClosed =>
        if device.running {
          device.OnClose();
        }
      case Interrupted =>
        stopped := true;
      }
      i := i + 1;
    }
    StoppedIsFinal(events[..i], events[i..], running0);
    assert events[..i] + events[i..] == events;
  }

  // ----- Properties of the loop -----

  /** Once the loop has stopped, later events change nothing. */
  lemma {:induction false} StoppedIsFinal(events: seq<Event>, rest: seq<Event>, running: bool)
    requires Run(events, running).stopped || rest == []
    ensures Run(events + rest, running) == Run(events, running)
  {
    if rest == [] {
      assert events + rest == events;
    } else {
      var more := events + rest;
      assert more[..|more| - 1] == events + rest[..|rest| - 1];
      StoppedIsFinal(events, rest[..|rest| - 1], running);
    }
  }

  /** The events of a run in which the clock is only polled. */
  function Polls(ts: seq<Time>): (es: seq<Event>)
    ensures |es| == |ts| && forall i :: 0 <= i < |ts| ==> es[i] == Poll(ts[i])
  {
    seq(|ts|, i requires 0 <= i < |ts| => Poll(ts[i]))
  }

  /** Number of adjacent polls whose seconds differ. */
  function Changes(ts: seq<Time>): nat {
    if |ts| <= 1 then 0
    else Changes(ts[..|ts| - 1]) + (if ts[|ts| - 2].second != ts[|ts| - 1].second then 1 else 0)
  }

  /** The latest poll at which the second changed (the first poll counts as a change). */
  function LastRendered(ts: seq<Time>): (t: Time)
    requires ts != []
    ensures t in ts && t.second == ts[|ts| - 1].second
  {
    if |ts| == 1 || ts[|ts| - 2].second != ts[|ts| - 1].second then ts[|ts| - 1]
    else LastRendered(ts[..|ts| - 1])
  }

  /** On a running device that is only polled, the first poll renders, and after that
      a poll renders exactly when its second differs from the previous poll's: the
      frame count is 1 plus the number of changes, and the latest frame shows the
      latest poll at which the second changed. */
  lemma {:induction false} PollsRender(ts: seq<Time>)
    requires ts != [] && forall i :: 0 <= i < |ts| ==> ValidTime(ts[i])
    ensures Run(Polls(ts), true) ==
      LoopState(ts[|ts| - 1].second, true, 1 + Changes(ts), Some(LastRendered(ts)), false)
  {
    var p := ts[..|ts| - 1];
    var es := Polls(ts);
    assert es[..|es| - 1] == Polls(p);
    assert es[|es| - 1] == Poll(ts[|ts| - 1]);
    if p == [] {
      assert Polls(p) == [];
    } else {
      PollsRender(p);
      assert p[|p| - 1] == ts[|ts| - 2];
      assert Run(es, true) == Next(Run(Polls(p), true), Poll(ts[|ts| - 1]));
    }
  }

  /** Poll i (after the first) renders iff its second differs from that of poll i - 1. */
  lemma RenderOnChange(ts: seq<Time>, i: nat)
    requires 0 < i < |ts| && forall j :: 0 <= j < |ts| ==> ValidTime(ts[j])
    ensures Run(Polls(ts[..i + 1]), true).renders ==
      Run(Polls(ts[..i]), true).renders + (if ts[i].second != ts[i - 1].second then 1 else 0)
  {
    PollsRender(ts[..i + 1]);
    PollsRender(ts[..i]);
    assert ts[..i + 1][..i] == ts[..i];
  }

  /** After the window is closed no further frame is pushed: the device stays
      stopped unless the loop already has. */
  lemma {:induction false} NoRenderAfterClose(before: seq<Event>, after: seq<Event>, running: bool)
    ensures var closed := Run(before + [WindowClosed], running);
      var s := Run(before + [WindowClosed] + after, running);
      s.renders == closed.renders && s.shown == closed.shown && (s.stopped || !s.running)
  {
    var closing := before + [WindowClosed];
    assert closing[..|closing| - 1] == before;
    if after == [] {
      assert closing + after == closing;
    } else {
      var all := closing + after;
      assert all[..|all| - 1] == closing + after[..|after| - 1];
      NoRenderAfterClose(before, after[..|after| - 1], running);
    }
  }

  /** A minute and hour rollover, 23:59:59 then 00:00:00: one render each, and the
      latest frame is the string "00:00:00". */
  lemma Rollover()
    ensures Run(Polls([Time(23, 59, 59), Time(0, 0, 0)]), true) == LoopState(0, true, 2, Some(Time(0, 0, 0)), false)
    ensures FormatTime(Time(0, 0, 0)) == "00:00:00"
  {
    PollsRender([Time(23, 59, 59), Time(0, 0, 0)]);
    FormatExamples();
  }

  /** The display size get_device gives the emulator. */
  const DisplayWidth: nat := 32
  const DisplayHeight: nat := 8

  /** Every pixel of a rendered time lies in columns 2..28 and rows 0..6 of the
      32x8 display. */
  lemma FrameFitsDisplay(t: Time, x: int, y: int)
    requires ValidTime(t) && FrameLit(t, x, y)
    ensures 2 <= x <= 28 && 0 <= y < 7
    ensures x < DisplayWidth && y < DisplayHeight
  {
    TimeFits(FormatTime(t), 0, x, y);
  }

  /** The emulator path of main: a fresh 32x8 emulator, the clock loop, and cleanup
      on the way out. The window is destroyed exactly once however the loop ended. */
  method ClockSession(events: seq<Event>) returns (renders: nat, destroyed: nat)
    requires ValidEvents(events)
    ensures renders == Run(events, true).renders
    ensures destroyed == 1
  {
    var device := new TkinterEmulator(DisplayWidth, DisplayHeight, "red");
    var stopped;
    renders, stopped := RunClock(device, events);
    device.Cleanup();
    destroyed := device.destroyCount;
  }
}
