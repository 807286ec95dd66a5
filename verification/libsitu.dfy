/** The Gps coordinator: the table of named watches, the last fix
    dispatched, and the polling flag.  The mutex around the table and the
    poller thread itself are not modelled; thread creation is the boolean
    it reports. */
module Situ {
  import opened Double
  import opened SituTypes
  import opened GpsMath
  import opened GpsWatch
  import opened KeyOrder

  /** Every watch after one fix */
  ghost function DispatchViews(views: map<string, WatchView>, fix: Fix, trig: Trig): map<string, WatchView>
  {
    map k | k in views :: Step(views[k], fix, k, trig).watch
  }

  function CallsOf(call: Option<AlarmCall>): seq<AlarmCall>
  {
    if call.Some? then [call.value] else []
  }

  /** The alarm invocations of one fix, watch by watch in the order `keys` */
  ghost function AlarmCalls(views: map<string, WatchView>, keys: seq<string>, fix: Fix, trig: Trig): (calls: seq<AlarmCall>)
    ensures |calls| <= |keys|
    ensures forall c :: c in calls ==> c.name in keys && c.event != NONE
    decreases |keys|
  {
    if keys == [] then []
    else
      var last := keys[|keys| - 1];
      AlarmCalls(views, keys[..|keys| - 1], fix, trig) +
      (if last in views then CallsOf(Step(views[last], fix, last, trig).call) else [])
  }

  predicate NamesIncreasing(calls: seq<AlarmCall>)
  {
    forall i, j :: 0 <= i < j < |calls| ==> Less(calls[i].name, calls[j].name)
  }

  /** Alarm invocations come out in strictly increasing watch-name order,
      so no watch fires twice for one fix */
  lemma {:induction false} AlarmCallsInKeyOrder(views: map<string, WatchView>, keys: seq<string>, fix: Fix, trig: Trig)
    requires forall i :: 0 <= i < |keys| ==> keys[i] in views
    requires StrictlySorted(keys)
    ensures NamesIncreasing(AlarmCalls(views, keys, fix, trig))
    decreases |keys|
  {
    if keys != [] {
      var init := keys[..|keys| - 1];
      var last := keys[|keys| - 1];
      AlarmCallsInKeyOrder(views, init, fix, trig);
      var before := AlarmCalls(views, init, fix, trig);
      var calls := AlarmCalls(views, keys, fix, trig);
      assert NamesIncreasing(before);
      forall c | c in before
        ensures Less(c.name, last)
      {
        var i :| 0 <= i < |init| && init[i] == c.name;
        assert keys[i] == c.name;
      }
      var own := Step(views[last], fix, last, trig).call;
      assert calls == before + CallsOf(own);
      forall i, j | 0 <= i < j < |calls|
        ensures Less(calls[i].name, calls[j].name)
      {
        assert calls[i] == before[i];
        if j < |before| {
          assert calls[j] == before[j];
          assert Less(before[i].name, before[j].name);
        } else {
          assert calls[j] == own.value && own.value.name == last;
          assert before[i] in before;
          assert Less(before[i].name, last);
        }
      }
    }
  }

  /** The watch named k raises an alarm in the dispatch exactly when its own
      step does, and it is that step's call, with its event, distance and
      user data; other watches do not affect it */
  lemma {:induction false} AlarmCallsOfWatch(views: map<string, WatchView>, keys: seq<string>, fix: Fix, trig: Trig, k: string)
    requires forall i :: 0 <= i < |keys| ==> keys[i] in views
    requires k in keys
    requires StrictlySorted(keys)
    ensures (exists c :: c in AlarmCalls(views, keys, fix, trig) && c.name == k) <==>
      Step(views[k], fix, k, trig).call.Some?
    ensures Step(views[k], fix, k, trig).call.Some? ==>
      Step(views[k], fix, k, trig).call.value in AlarmCalls(views, keys, fix, trig)
    ensures forall c :: c in AlarmCalls(views, keys, fix, trig) && c.name == k ==>
      Step(views[k], fix, k, trig).call == Some(c)
    decreases |keys|
  {
    var init := keys[..|keys| - 1];
    var last := keys[|keys| - 1];
    var calls := AlarmCalls(views, keys, fix, trig);
    var own := Step(views[last], fix, last, trig).call;
    assert calls == AlarmCalls(views, init, fix, trig) + CallsOf(own);
    if k == last {
      assert k !in init;
      if own.Some? {
        assert own.value in calls;
      }
    } else {
      assert k in init;
      AlarmCallsOfWatch(views, init, fix, trig, k);
    }
  }

  lemma DispatchOneMore(views: map<string, WatchView>, done: seq<string>, k: string, fix: Fix, trig: Trig)
    requires forall i :: 0 <= i < |done| ==> done[i] in views
    requires k in views
    ensures AlarmCalls(views, done + [k], fix, trig) ==
      AlarmCalls(views, done, fix, trig) + CallsOf(Step(views[k], fix, k, trig).call)
  {
  }

  /** The table part-way through a dispatch: the watches named in
      `remaining` still hold their old value */
  ghost function Partial(views: map<string, WatchView>, remaining: set<string>, fix: Fix, trig: Trig): map<string, WatchView>
  {
    map k | k in views :: if k in remaining then views[k] else Step(views[k], fix, k, trig).watch
  }

  lemma PartialOneMore(views: map<string, WatchView>, remaining: set<string>, k: string, fix: Fix, trig: Trig)
    requires k in remaining && k in views
    ensures Partial(views, remaining, fix, trig)[k := Step(views[k], fix, k, trig).watch] ==
      Partial(views, remaining - {k}, fix, trig)
  {
  }

  lemma PartialDone(views: map<string, WatchView>, fix: Fix, trig: Trig)
    ensures Partial(views, views.Keys, fix, trig) == views
    ensures Partial(views, {}, fix, trig) == DispatchViews(views, fix, trig)
  {
  }

  /** One more key visited, in key order */
  lemma AdvanceOrder(done: seq<string>, remaining: set<string>, k: string, all: set<string>)
    requires IsLeast(k, remaining)
    requires done + Ordered(remaining) == Ordered(all)
    requires forall i :: 0 <= i < |done| ==> done[i] in all && done[i] !in remaining
    requires remaining <= all
    ensures (done + [k]) + Ordered(remaining - {k}) == Ordered(all)
    ensures forall i :: 0 <= i < |done + [k]| ==> (done + [k])[i] in all && (done + [k])[i] !in remaining - {k}
  {
    OrderedUnfold(remaining, k);
    var rest := Ordered(remaining - {k});
    assert (done + [k]) + rest == done + ([k] + rest);
    forall i | 0 <= i < |done + [k]|
      ensures (done + [k])[i] in all && (done + [k])[i] !in remaining - {k}
    {
      if i < |done| {
        assert (done + [k])[i] == done[i];
      } else {
        assert (done + [k])[i] == k;
      }
    }
  }

  class Gps {
    const host: string
    const port: string
    const pollUs: int
    const sleepUs: int

    var watches: map<string, Watch>
    var polling: bool
    var lastFix: Fix

    /** Every fix handed to handle_poll_fix, oldest first: the handle_fix
        hook has been invoked with each of them */
    ghost var fixes: seq<Fix>
    /** How many times the handle_timeout hook has been invoked */
    ghost var timeouts: nat

    /** Each name owns its own watch, and the last fix is the most recently
        dispatched one, or the zero fix before any */
    ghost predicate Valid()
      reads this
    {
      && (forall a, b :: a in watches && b in watches && a != b ==> watches[a] != watches[b])
      && lastFix == (if fixes == [] then ZeroFix else fixes[|fixes| - 1])
    }

    /** The table of watches as values */
    ghost function Views(): map<string, WatchView>
      reads this`watches, watches.Values
    {
      map k | k in watches :: watches[k].View()
    }

    /** Gps::Gps: an empty table, a zero last fix, and polling started if the
        poller thread could be created */
    constructor (host: string, port: string, pollUs: int, sleepUs: int, threadCreated: bool)
      ensures Valid()
      ensures this.host == host && this.port == port && this.pollUs == pollUs && this.sleepUs == sleepUs
      ensures watches == map[] && lastFix == ZeroFix && polling == threadCreated
      ensures fixes == [] && timeouts == 0
    {
      this.host, this.port := host, port;
      this.pollUs, this.sleepUs := pollUs, sleepUs;
      watches := map[];
      polling := false;
      lastFix := ZeroFix;
      fixes, timeouts := [], 0;
      new;
      StartPolling(threadCreated);
    }

    /** Gps::add_watch: `m_watches[name] = watch`, so an existing entry is
        overwritten in place (losing its learned state) and a missing one is
        default-constructed first */
    method AddWatch(name: string, lat: Num, lon: Num, rad: Num, alarm: Handle, data: Handle)
      requires Valid()
      modifies this, watches.Values
      ensures Valid()
      ensures watches.Keys == old(watches.Keys) + {name}
      ensures Views() == old(Views())[name := WatchView(lat, lon, rad, alarm, data, UNKNOWN)]
      ensures lastFix == old(lastFix) && polling == old(polling)
      ensures fixes == old(fixes) && timeouts == old(timeouts)
    {
      var watch := new Watch(lat, lon, rad, alarm, data);
      if name in watches {
        ReplaceWatch(name, watch);
      } else {
        var slot := new Watch.Default();
        slot.Assign(watch);
        InsertWatch(name, slot);
      }
    }

    /** A new entry under a name the table does not hold yet */
    method InsertWatch(name: string, slot: Watch)
      requires Valid() && name !in watches && slot !in watches.Values
      modifies this
      ensures Valid()
      ensures watches == old(watches)[name := slot]
      ensures Views() == old(Views())[name := slot.View()]
      ensures lastFix == old(lastFix) && polling == old(polling)
      ensures fixes == old(fixes) && timeouts == old(timeouts)
    {
      watches := watches[name := slot];
    }

    /** `operator=` on the watch already stored under `name` */
    method ReplaceWatch(name: string, watch: Watch)
      requires Valid() && name in watches
      modifies watches[name]
      ensures Valid()
      ensures Views() == old(Views())[name := old(watch.View())]
    {
      ghost var before := Views();
      var slot := watches[name];
      slot.Assign(watch);
      forall k | k in watches && k != name
        ensures watches[k].View() == before[k]
      {
        assert watches[k] != slot;
      }
    }

    /** Gps::remove_watch: erase the entry if there is one */
    method RemoveWatch(name: string)
      requires Valid()
      modifies this
      ensures Valid()
      ensures watches.Keys == old(watches.Keys) - {name}
      ensures Views() == old(Views()) - {name}
      ensures lastFix == old(lastFix) && polling == old(polling)
      ensures fixes == old(fixes) && timeouts == old(timeouts)
    {
      watches := watches - {name};
    }

    /** Gps::handle_poll_fix: record the fix, invoke the handle_fix hook,
        then step every watch in key order */
    method HandlePollFix(fix: Fix, trig: Trig) returns (calls: seq<AlarmCall>)
      requires Valid()
      modifies this, watches.Values
      ensures Valid()
      ensures watches == old(watches)
      ensures lastFix == fix && fixes == old(fixes) + [fix] && timeouts == old(timeouts)
      ensures polling == old(polling)
      ensures Views() == DispatchViews(old(Views()), fix, trig)
      ensures calls == AlarmCalls(old(Views()), Ordered(old(watches.Keys)), fix, trig)
    {
      lastFix := fix;
      fixes := fixes + [fix];
      calls := DispatchFix(fix, trig);
    }

    /** The loop over the table: each watch handles the fix, in key order */
    method DispatchFix(fix: Fix, trig: Trig) returns (calls: seq<AlarmCall>)
      requires Valid()
      modifies watches.Values
      ensures Views() == DispatchViews(old(Views()), fix, trig)
      ensures calls == AlarmCalls(old(Views()), Ordered(watches.Keys), fix, trig)
    {
      ghost var before := Views();
      PartialDone(before, fix, trig);
      var remaining := watches.Keys;
      ghost var done: seq<string> := [];
      calls := [];
      while remaining != {}
        invariant remaining <= watches.Keys
        invariant done + Ordered(remaining) == Ordered(watches.Keys)
        invariant forall i :: 0 <= i < |done| ==> done[i] in watches && done[i] !in remaining
        invariant Views() == Partial(before, remaining, fix, trig)
        invariant calls == AlarmCalls(before, done, fix, trig)
        decreases remaining
      {
        LeastExists(remaining);
        var k :| IsLeast(k, remaining);
        var call := StepWatch(k, fix, trig);
        PartialOneMore(before, remaining, k, fix, trig);
        DispatchOneMore(before, done, k, fix, trig);
        calls := calls + CallsOf(call);
        AdvanceOrder(done, remaining, k, watches.Keys);
        done := done + [k];
        remaining := remaining - {k};
      }
      assert done == Ordered(watches.Keys);
    }

    /** Watch::handle_fix on the watch named k, every other watch untouched */
    method StepWatch(k: string, fix: Fix, trig: Trig) returns (call: Option<AlarmCall>)
      requires Valid() && k in watches
      modifies watches[k]
      ensures call == Step(old(Views())[k], fix, k, trig).call
      ensures Views() == old(Views())[k := Step(old(Views())[k], fix, k, trig).watch]
    {
      var w := watches[k];
      call := w.HandleFix(fix, k, trig);
      forall k' | k' in watches && k' != k
        ensures watches[k'].View() == old(watches[k'].View())
      {
        assert watches[k'] != w;
      }
    }

    /** Gps::handle_poll_timeout: only the handle_timeout hook runs */
    method HandlePollTimeout()
      requires Valid()
      modifies this
      ensures Valid()
      ensures timeouts == old(timeouts) + 1
      ensures watches == old(watches) && lastFix == old(lastFix) && polling == old(polling)
      ensures fixes == old(fixes)
    {
      timeouts := timeouts + 1;
    }

    /** Gps::get_last_fix: the most recently dispatched fix, or the zero
        (invalid) fix if none has been dispatched yet */
    method GetLastFix() returns (fix: Fix)
      requires Valid()
      ensures fix == (if fixes == [] then ZeroFix else fixes[|fixes| - 1])
      ensures fixes == [] ==> !fix.valid
    {
      fix := lastFix;
    }

    /** Gps::start_polling: a no-op while polling; otherwise polling starts
        if and only if the thread was created */
    method StartPolling(threadCreated: bool)
      modifies this`polling
      ensures polling == (old(polling) || threadCreated)
    {
      if polling {
        // already polling: warning only
      } else {
        if threadCreated {
          polling := true;
        }
      }
    }

    /** Gps::stop_polling: a no-op while not polling; otherwise the thread is
        cancelled and joined, and polling ends whatever those report */
    method StopPolling()
      modifies this`polling
      ensures !polling
    {
      if !polling {
        // not polling: warning only
      } else {
        polling := false;
      }
    }
  }
}
