/** One geofence and its transition state machine.  A watch keeps the last
    definite classification (FAR or NEAR) of the fixes it has seen, and
    fires ARRIVE or DEPART through its alarm when that classification
    changes. */
module GpsWatch {
  import opened Double
  import opened SituTypes
  import opened GpsMath

  /** The event a classification fires and the state stored afterwards */
  datatype Transition = Transition(event: Event, next: State)

  /** The transition table, one row per (stored, computed) pair */
  function Table(stored: State, computed: State): (t: Transition)
    ensures computed == UNKNOWN ==> t == Transition(NONE, stored)
    ensures computed != UNKNOWN ==> t.next == computed
    ensures t.event == ARRIVE <==> computed == NEAR && stored != NEAR
    ensures t.event == DEPART <==> computed == FAR && stored == NEAR
  {
    match (stored, computed)
    case (UNKNOWN, UNKNOWN) => Transition(NONE, UNKNOWN)
    case (UNKNOWN, FAR) => Transition(NONE, FAR)
    case (UNKNOWN, NEAR) => Transition(ARRIVE, NEAR)
    case (FAR, UNKNOWN) => Transition(NONE, FAR)
    case (FAR, FAR) => Transition(NONE, FAR)
    case (FAR, NEAR) => Transition(ARRIVE, NEAR)
    case (NEAR, UNKNOWN) => Transition(NONE, NEAR)
    case (NEAR, FAR) => Transition(DEPART, FAR)
    case (NEAR, NEAR) => Transition(NONE, NEAR)
  }

  /** The value of a watch: centre, radius, alarm, user data, stored state */
  datatype WatchView = WatchView(lat: Num, lon: Num, rad: Num, alarm: Handle, data: Handle, state: State)

  /** A watch as value-initialised: all zero, no alarm, state UNKNOWN */
  const DefaultView := WatchView(Fin(0.0), Fin(0.0), Fin(0.0), 0, 0, UNKNOWN)

  /** A watch after one fix, and the alarm invocation it made, if any */
  datatype StepResult = StepResult(watch: WatchView, call: Option<AlarmCall>)

  /** What Watch::handle_fix does to a watch named `name` */
  function Step(w: WatchView, fix: Fix, name: string, trig: Trig): (r: StepResult)
    ensures r.watch == w.(state := r.watch.state)
    ensures r.watch.state == Table(w.state, Distance(fix, w.lat, w.lon, w.rad, trig).state).next
    ensures w.state != UNKNOWN ==> r.watch.state != UNKNOWN
    ensures r.call.Some? <==>
      w.alarm != 0 && Table(w.state, Distance(fix, w.lat, w.lon, w.rad, trig).state).event != NONE
    ensures r.call.Some? ==>
      var c := r.call.value;
      && c.alarm == w.alarm && c.name == name && c.data == w.data
      && c.event == Table(w.state, Distance(fix, w.lat, w.lon, w.rad, trig).state).event
      && c.event != NONE
      && c.distance == Abs(trig(fix.latitude, fix.longitude, w.lat, w.lon))
      && (c.distance.PosInf? || (c.distance.Fin? && c.distance.v >= 0.0))
  {
    var m := Distance(fix, w.lat, w.lon, w.rad, trig);
    var t := Table(w.state, m.state);
    StepResult(
      w.(state := t.next),
      if w.alarm != 0 && t.event != NONE
      then Some(AlarmCall(w.alarm, name, Abs(m.distance), t.event, w.data))
      else None)
  }

  class Watch {
    var lat: Num
    var lon: Num
    var rad: Num
    var alarm: Handle
    var data: Handle
    var state: State

    function View(): WatchView
      reads this
    {
      WatchView(lat, lon, rad, alarm, data, state)
    }

    /** Watch::Watch() */
    constructor Default()
      ensures View() == DefaultView
    {
      lat, lon, rad := Fin(0.0), Fin(0.0), Fin(0.0);
      alarm, data := 0, 0;
      state := UNKNOWN;
    }

    /** Watch::Watch(lat, lon, rad, alarm, data) */
    constructor (lat: Num, lon: Num, rad: Num, alarm: Handle, data: Handle)
      ensures View() == WatchView(lat, lon, rad, alarm, data, UNKNOWN)
    {
      this.lat, this.lon, this.rad := lat, lon, rad;
      this.alarm, this.data := alarm, data;
      state := UNKNOWN;
    }

    /** Watch::Watch(const Watch &original): the learned state is copied too */
    constructor Copy(original: Watch)
      ensures View() == original.View()
    {
      lat, lon, rad := original.lat, original.lon, original.rad;
      alarm, data := original.alarm, original.data;
      state := original.state;
    }

    /** Watch::operator=, field by field, skipped on self-assignment */
    method Assign(rhs: Watch)
      modifies this
      ensures View() == old(rhs.View())
    {
      if this != rhs {
        lat := rhs.lat;
        lon := rhs.lon;
        rad := rhs.rad;
        alarm := rhs.alarm;
        data := rhs.data;
        state := rhs.state;
      }
    }

    /** Watch::handle_fix: classify the fix, report a confirmed transition
        to the alarm (returned here instead of being called), and store the
        new state unless it is UNKNOWN */
    method HandleFix(fix: Fix, name: string, trig: Trig) returns (call: Option<AlarmCall>)
      modifies this
      ensures View() == Step(old(View()), fix, name, trig).watch
      ensures call == Step(old(View()), fix, name, trig).call
      ensures old(state) != UNKNOWN ==> state != UNKNOWN
    {
      var measured := Distance(fix, lat, lon, rad, trig);
      var computed := measured.state;
      var distance := Abs(measured.distance);
      call := None;
      if computed != state {
        if alarm != 0 {
          var event := NONE;
          match computed {
            case UNKNOWN =>
            case FAR =>
              if state == NEAR {
                event := DEPART;
              }
            case NEAR =>
              event := ARRIVE;
          }
          if event != NONE {
            call := Some(AlarmCall(alarm, name, distance, event, data));
          }
        }
        if computed != UNKNOWN {
          state := computed;
        }
      }
    }
  }

  /** The stored state after a sequence of classifications, and the events
      fired along the way */
  datatype RunResult = RunResult(final: State, events: seq<Event>)

  /** Feeding the classifications `computed`, in order, to a watch whose
      stored state is `stored`; `StepsFollowRun` below ties this to the
      alarm calls of successive fixes */
  function Run(stored: State, computed: seq<State>): (r: RunResult)
    ensures NONE !in r.events
    ensures |r.events| <= |computed|
    decreases |computed|
  {
    if computed == [] then RunResult(stored, [])
    else
      var t := Table(stored, computed[0]);
      var rest := Run(t.next, computed[1..]);
      RunResult(rest.final, (if t.event == NONE then [] else [t.event]) + rest.events)
  }

  /** The stored state is UNKNOWN at the end of a run exactly when it was
      UNKNOWN at the start and every classification was UNKNOWN: once FAR
      or NEAR, a watch never goes back to UNKNOWN */
  lemma {:induction false} RunUnknownOnlyIfNeverDefinite(stored: State, computed: seq<State>)
    ensures Run(stored, computed).final == UNKNOWN <==>
      stored == UNKNOWN && forall i :: 0 <= i < |computed| ==> computed[i] == UNKNOWN
    decreases |computed|
  {
    if computed != [] {
      var t := Table(stored, computed[0]);
      RunUnknownOnlyIfNeverDefinite(t.next, computed[1..]);
      if t.next == UNKNOWN && forall i :: 0 <= i < |computed[1..]| ==> computed[1..][i] == UNKNOWN {
        forall i | 0 <= i < |computed| ensures computed[i] == UNKNOWN {
          if i > 0 { assert computed[i] == computed[1..][i - 1]; }
        }
      }
    }
  }

  /** The events of a run starting from `stored` alternate, beginning with
      ARRIVE unless the watch is already NEAR: two ARRIVEs are always
      separated by a DEPART and vice versa */
  predicate Alternating(stored: State, events: seq<Event>)
    decreases |events|
  {
    events == [] ||
    (events[0] == (if stored == NEAR then DEPART else ARRIVE) &&
     Alternating(if events[0] == ARRIVE then NEAR else FAR, events[1..]))
  }

  lemma {:induction false} RunEventsAlternate(stored: State, computed: seq<State>)
    ensures Alternating(stored, Run(stored, computed).events)
    decreases |computed|
  {
    if computed != [] {
      var t := Table(stored, computed[0]);
      var rest := Run(t.next, computed[1..]);
      RunEventsAlternate(t.next, computed[1..]);
      if t.event == NONE {
        // the stored state is unchanged as far as NEAR-ness goes
        assert (t.next == NEAR) == (stored == NEAR);
        assert Run(stored, computed).events == rest.events;
        AlternatingDependsOnNearOnly(t.next, stored, rest.events);
      } else {
        assert [t.event] + rest.events == Run(stored, computed).events;
        assert (Run(stored, computed).events)[1..] == rest.events;
      }
    }
  }

  lemma AlternatingDependsOnNearOnly(s: State, s': State, events: seq<Event>)
    requires (s == NEAR) == (s' == NEAR)
    requires Alternating(s, events)
    ensures Alternating(s', events)
  {
  }

  /** A watch that only sees its own stored state or UNKNOWN fires
      nothing and keeps its state */
  lemma {:induction false} SteadyRunIsSilent(stored: State, computed: seq<State>)
    requires forall i :: 0 <= i < |computed| ==> computed[i] == stored || computed[i] == UNKNOWN
    ensures Run(stored, computed) == RunResult(stored, [])
    decreases |computed|
  {
    if computed != [] {
      assert computed[0] == stored || computed[0] == UNKNOWN;
      SteadyRunIsSilent(stored, computed[1..]);
    }
  }

  /** Repeated fixes with the same classification fire at most one event */
  lemma RepeatedClassificationFiresAtMostOnce(stored: State, c: State, computed: seq<State>)
    requires forall i :: 0 <= i < |computed| ==> computed[i] == c
    ensures |Run(stored, computed).events| <= 1
  {
    if computed != [] {
      var t := Table(stored, c);
      SteadyRunIsSilent(t.next, computed[1..]);
    }
  }

  /** Hysteresis: NEAR, then any number of UNKNOWNs, then NEAR again fires
      exactly one ARRIVE, at the first NEAR, for a watch not already NEAR */
  lemma NearThroughUnknownArrivesOnce(stored: State, unknowns: nat)
    requires stored != NEAR
    ensures Run(stored, [NEAR] + seq(unknowns, _ => UNKNOWN) + [NEAR]) == RunResult(NEAR, [ARRIVE])
  {
    var u := seq(unknowns, _ => UNKNOWN);
    var cs := [NEAR] + u + [NEAR];
    SteadyRunIsSilent(NEAR, cs[1..]);
    assert Run(stored, cs).events == [ARRIVE] + Run(NEAR, cs[1..]).events;
  }

  /** Successive Watch::handle_fix calls on a watch named `name`: the watch
      after the fixes, and the alarm calls made along the way, in order */
  function Steps(w: WatchView, fixes: seq<Fix>, name: string, trig: Trig): (r: (WatchView, seq<AlarmCall>))
    ensures r.0 == w.(state := r.0.state)
    ensures |r.1| <= |fixes|
    ensures forall c :: c in r.1 ==> c.alarm == w.alarm && c.name == name && c.data == w.data
    ensures w.alarm == 0 ==> r.1 == []
    decreases |fixes|
  {
    if fixes == [] then (w, [])
    else
      var s := Step(w, fixes[0], name, trig);
      var rest := Steps(s.watch, fixes[1..], name, trig);
      (rest.0, (if s.call.Some? then [s.call.value] else []) + rest.1)
  }

  /** The classification of each fix against the watch's circle */
  function Classes(w: WatchView, fixes: seq<Fix>, trig: Trig): seq<State>
  {
    seq(|fixes|, i requires 0 <= i < |fixes| => Distance(fixes[i], w.lat, w.lon, w.rad, trig).state)
  }

  /** The events of a sequence of alarm calls */
  function EventsOf(calls: seq<AlarmCall>): seq<Event>
  {
    seq(|calls|, i requires 0 <= i < |calls| => calls[i].event)
  }

  /** Successive steps of a watch are the run of the transition table over
      the fixes' classifications: the same final state and, when the watch
      has an alarm, the same events, in the same order */
  lemma {:induction false} StepsFollowRun(w: WatchView, fixes: seq<Fix>, name: string, trig: Trig)
    ensures Steps(w, fixes, name, trig).0.state == Run(w.state, Classes(w, fixes, trig)).final
    ensures w.alarm != 0 ==> EventsOf(Steps(w, fixes, name, trig).1) == Run(w.state, Classes(w, fixes, trig)).events
    decreases |fixes|
  {
    if fixes != [] {
      var s := Step(w, fixes[0], name, trig);
      var cs := Classes(w, fixes, trig);
      assert Classes(s.watch, fixes[1..], trig) == cs[1..];
      StepsFollowRun(s.watch, fixes[1..], name, trig);
      var head := if s.call.Some? then [s.call.value] else [];
      var rest := Steps(s.watch, fixes[1..], name, trig).1;
      assert EventsOf(head + rest) == EventsOf(head) + EventsOf(rest);
    }
  }

  /** The alarm calls a watch makes over any sequence of fixes alternate
      ARRIVE and DEPART, starting with ARRIVE unless the watch is NEAR */
  lemma StepsEventsAlternate(w: WatchView, fixes: seq<Fix>, name: string, trig: Trig)
    requires w.alarm != 0
    ensures Alternating(w.state, EventsOf(Steps(w, fixes, name, trig).1))
  {
    StepsFollowRun(w, fixes, name, trig);
    RunEventsAlternate(w.state, Classes(w, fixes, trig));
  }

  /** Once a watch has stored FAR or NEAR, no sequence of fixes takes it
      back to UNKNOWN */
  lemma StepsNeverUnknownAgain(w: WatchView, fixes: seq<Fix>, name: string, trig: Trig)
    requires w.state != UNKNOWN
    ensures Steps(w, fixes, name, trig).0.state != UNKNOWN
  {
    StepsFollowRun(w, fixes, name, trig);
    RunUnknownOnlyIfNeverDefinite(w.state, Classes(w, fixes, trig));
  }
}
