/** The gpsd side of the library: turning one gpsd report into a Fix, and
    what one turn of the poll loop does with a report.  The connection to
    gpsd, the wait, the read and the sleep between turns are not modelled:
    whether data was waiting and what the read returned are parameters. */
module Poller {
  import opened Double
  import opened SituTypes
  import opened GpsMath
  import opened GpsWatch
  import opened KeyOrder
  import opened Situ

  /** The field-present bits of gps_data_t.set that the parser looks at */
  datatype Flag = PACKET_SET | STATUS_SET | MODE_SET | LATLON_SET | HERR_SET | SPEED_SET | SPEEDERR_SET | TRACK_SET

  /** gps_data_t.status values */
  const STATUS_NO_FIX: int := 0
  const STATUS_FIX: int := 1
  const STATUS_DGPS_FIX: int := 2

  /** gps_fix_t.mode values */
  const MODE_NOT_SEEN: int := 0
  const MODE_NO_FIX: int := 1
  const MODE_2D: int := 2
  const MODE_3D: int := 3

  /** The parts of gps_fix_t the parser reads */
  datatype RawFix = RawFix(mode: int, latitude: Num, longitude: Num, epx: Num, epy: Num,
                           speed: Num, eps: Num, track: Num)

  /** The parts of gps_data_t the parser reads */
  datatype RawGpsData = RawGpsData(mask: set<Flag>, status: int, fix: RawFix, satellitesUsed: Int32)

  /** The report carries a 2D or 3D fix with a position and its horizontal
      error components */
  predicate HasPosition(g: RawGpsData)
  {
    && PACKET_SET in g.mask
    && STATUS_SET in g.mask
    && (g.status == STATUS_FIX || g.status == STATUS_DGPS_FIX)
    && MODE_SET in g.mask
    && (g.fix.mode == MODE_2D || g.fix.mode == MODE_3D)
    && LATLON_SET in g.mask
    && HERR_SET in g.mask
  }

  /** The RMS of the two error components could be computed */
  predicate RmsComputes(g: RawGpsData, backend: Backend, hypot: Num)
    requires IsHypot(g.fix.epx, g.fix.epy, hypot)
  {
    CalculateRms(backend, g.fix.epx, g.fix.epy, hypot, Fin(0.0)).ok
  }

  /** The report yields a usable fix */
  predicate YieldsFix(g: RawGpsData, backend: Backend, hypot: Num)
    requires IsHypot(g.fix.epx, g.fix.epy, hypot)
  {
    HasPosition(g) && RmsComputes(g, backend, hypot) &&
    IsFinite(g.fix.latitude) && IsFinite(g.fix.longitude)
  }

  /** The Fix a report yields: the all-zero fix unless the report carries a
      position whose RMS error could be computed; speed and track only when
      their bits are set; valid exactly when the position is finite */
  function ParsedFix(gpsData: Option<RawGpsData>, backend: Backend, hypot: Num): (r: Fix)
    requires gpsData.Some? ==> IsHypot(gpsData.value.fix.epx, gpsData.value.fix.epy, hypot)
    ensures r.valid <==> gpsData.Some? && YieldsFix(gpsData.value, backend, hypot)
    ensures r.valid ==> IsFinite(r.latitude) && IsFinite(r.longitude) && r.eph == hypot
    ensures r.hasSpeed ==>
      gpsData.Some? && HasPosition(gpsData.value) &&
      SPEED_SET in gpsData.value.mask && SPEEDERR_SET in gpsData.value.mask
    ensures r.hasTrack ==> gpsData.Some? && HasPosition(gpsData.value) && TRACK_SET in gpsData.value.mask
    ensures gpsData.Some? && HasPosition(gpsData.value) && RmsComputes(gpsData.value, backend, hypot) ==>
      r.latitude == gpsData.value.fix.latitude && r.longitude == gpsData.value.fix.longitude &&
      r.satellitesUsed == ToUnsigned(gpsData.value.satellitesUsed as int)
    ensures !r.hasSpeed ==> r.speed == Fin(0.0) && r.eps == Fin(0.0)
    ensures !r.hasTrack ==> r.track == Fin(0.0)
  {
    match gpsData
    case None => ZeroFix
    case Some(g) =>
      if !(HasPosition(g) && RmsComputes(g, backend, hypot)) then ZeroFix
      else
        var hasSpeed := SPEED_SET in g.mask && SPEEDERR_SET in g.mask;
        var hasTrack := TRACK_SET in g.mask;
        Fix(IsFinite(g.fix.latitude) && IsFinite(g.fix.longitude), g.fix.latitude, g.fix.longitude, hypot,
            hasSpeed, if hasSpeed then g.fix.speed else Fin(0.0), if hasSpeed then g.fix.eps else Fin(0.0),
            hasTrack, if hasTrack then g.fix.track else Fin(0.0), ToUnsigned(g.satellitesUsed as int))
  }

  /** parse_raw_gps_data(gps_data, data): `gpsData` is None for a NULL
      pointer, `hypot` is the hypotenuse of the two error components, and
      `data` is the Fix written through the reference */
  method ParseRawGpsData(gpsData: Option<RawGpsData>, backend: Backend, hypot: Num) returns (ok: bool, data: Fix)
    requires gpsData.Some? ==> IsHypot(gpsData.value.fix.epx, gpsData.value.fix.epy, hypot)
    ensures ok == data.valid
    ensures data == ParsedFix(gpsData, backend, hypot)
    ensures ok <==> gpsData.Some? && YieldsFix(gpsData.value, backend, hypot)
    ensures gpsData.None? ==> data == ZeroFix
    ensures gpsData.Some? && !(HasPosition(gpsData.value) && RmsComputes(gpsData.value, backend, hypot)) ==>
      data == ZeroFix
    ensures gpsData.Some? && HasPosition(gpsData.value) && RmsComputes(gpsData.value, backend, hypot) ==>
      var g := gpsData.value;
      && data.latitude == g.fix.latitude
      && data.longitude == g.fix.longitude
      && data.eph == hypot
      && data.satellitesUsed == ToUnsigned(g.satellitesUsed as int)
      && (data.hasSpeed <==> SPEED_SET in g.mask && SPEEDERR_SET in g.mask)
      && (data.hasSpeed ==> data.speed == g.fix.speed && data.eps == g.fix.eps)
      && (!data.hasSpeed ==> data.speed == Fin(0.0) && data.eps == Fin(0.0))
      && (data.hasTrack <==> TRACK_SET in g.mask)
      && (data.hasTrack ==> data.track == g.fix.track)
      && (!data.hasTrack ==> data.track == Fin(0.0))
  {
    data := ZeroFix;
    if gpsData.None? {
      // null GPS data pointer
    } else {
      var g := gpsData.value;
      if PACKET_SET in g.mask {
        if STATUS_SET in g.mask {
          if g.status == STATUS_NO_FIX {
          } else if g.status == STATUS_FIX || g.status == STATUS_DGPS_FIX {
            if MODE_SET in g.mask {
              if g.fix.mode == MODE_NOT_SEEN {
              } else if g.fix.mode == MODE_NO_FIX {
              } else if g.fix.mode == MODE_2D || g.fix.mode == MODE_3D {
                if LATLON_SET in g.mask && HERR_SET in g.mask {
                  var eph := Fin(0.0);
                  var rms := CalculateRms(backend, g.fix.epx, g.fix.epy, hypot, eph);
                  eph := rms.rms;
                  if !rms.ok {
                    // failed to calculate the RMS horizontal position error
                  } else {
                    data := data.(latitude := g.fix.latitude, longitude := g.fix.longitude, eph := eph,
                                  satellitesUsed := ToUnsigned(g.satellitesUsed as int));
                    if SPEED_SET in g.mask && SPEEDERR_SET in g.mask {
                      data := data.(hasSpeed := true, speed := g.fix.speed, eps := g.fix.eps);
                    }
                    if TRACK_SET in g.mask {
                      data := data.(hasTrack := true, track := g.fix.track);
                    }
                    data := data.(valid := IsFinite(data.latitude) && IsFinite(data.longitude));
                  }
                }
              } else {
                // unrecognised mode
              }
            }
          } else {
            // unrecognised status
          }
        }
      }
    }
    ok := data.valid;
  }

  /** What one turn of the poll loop did */
  datatype Outcome = Dispatched(fix: Fix) | Dropped | TimedOut

  /** One turn of poller's loop: with data waiting, read a report and, if it
      parses, dispatch it; a NULL read or a failed parse drops the turn; with
      nothing waiting, the timeout is reported */
  method PollCycle(gps: Gps, waiting: bool, read: Option<RawGpsData>, backend: Backend, hypot: Num, trig: Trig)
    returns (outcome: Outcome, calls: seq<AlarmCall>)
    requires gps.Valid()
    requires read.Some? ==> IsHypot(read.value.fix.epx, read.value.fix.epy, hypot)
    modifies gps, gps.watches.Values
    ensures gps.Valid()
    ensures gps.watches == old(gps.watches) && gps.polling == old(gps.polling)
    ensures outcome.TimedOut? <==> !waiting
    ensures outcome.Dispatched? <==> waiting && read.Some? && YieldsFix(read.value, backend, hypot)
    ensures outcome.Dispatched? ==>
      && outcome.fix.valid
      && outcome.fix == ParsedFix(read, backend, hypot)
      && gps.fixes == old(gps.fixes) + [outcome.fix]
      && gps.timeouts == old(gps.timeouts)
      && gps.Views() == DispatchViews(old(gps.Views()), outcome.fix, trig)
      && calls == AlarmCalls(old(gps.Views()), Ordered(old(gps.watches.Keys)), outcome.fix, trig)
    ensures outcome.TimedOut? ==>
      && gps.fixes == old(gps.fixes)
      && gps.timeouts == old(gps.timeouts) + 1
      && gps.Views() == old(gps.Views())
      && calls == []
    ensures outcome.Dropped? ==>
      && gps.fixes == old(gps.fixes)
      && gps.timeouts == old(gps.timeouts)
      && gps.lastFix == old(gps.lastFix)
      && gps.Views() == old(gps.Views())
      && calls == []
  {
    calls := [];
    if waiting {
      var gpsData := read;
      if gpsData.None? {
        // null GPS data from the interface
        outcome := Dropped;
      } else {
        var ok, fix := ParseRawGpsData(gpsData, backend, hypot);
        if ok {
          calls := gps.HandlePollFix(fix, trig);
          outcome := Dispatched(fix);
        } else {
          outcome := Dropped;
        }
      }
    } else {
      gps.HandlePollTimeout();
      outcome := TimedOut;
    }
  }
}
