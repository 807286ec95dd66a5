# libsitu geofence core in Dafny

libsitu watches a stream of GPS fixes from gpsd. It keeps a table of named
circular geofences ("watches") and classifies every fix against every watch as
NEAR, FAR or UNKNOWN. It fires an ARRIVE or DEPART alarm when a watch's
confirmed classification changes. This project models:

- the uncertainty-aware classifier and its helpers (`Math::distance`,
  `Math::calculate_rms`, `Math::is_finite`), in `gpsmath.dfy`;
- the per-watch transition state machine (`Watch`), in `gpswatch.dfy`;
- the coordinator (`Gps`): the watch table, the last fix, the polling flag and
  the dispatch of a fix to every watch in key order. This is in `libsitu.dfy`,
  with the `std::string` key order in `keyorder.dfy`;
- the gpsd report validator (`parse_raw_gps_data`) and one turn of the poll
  loop, in `gpspoller.dfy`;
- `Util::event_str` and `Util::parse_string_to_integer`, the latter over a model
  of `strtol` that follows section 7.22.1.4 of ISO C11, in `gpsutil.dfy`.

Modelling choices:

- Doubles are `Double.Num`: a finite real, +inf, -inf or NaN. Addition,
  subtraction, `fabs`, scaling by a positive constant and the comparisons follow
  IEEE 754 on these values. Rounding is not modelled.
- The great-circle distance is an opaque function `trig` of the two positions.
  Its result may be any `Num`, including NaN.
- The value of `hypot`/`mpfr_hypot` is passed in, constrained by `IsHypot`:
  +inf if either argument is infinite, else NaN if either is NaN, else the
  non-negative square root of x² + y². `calculate_rms` has an MPFR branch and
  a libm branch; which one runs is the `Backend` parameter. As the text
  stands, neither build compiles. `Watch::operator=` is declared returning
  `Watch&` (src/gpswatch.h:39) but defined returning `const Watch&`
  (src/gpswatch.cpp:54), which makes src/gpswatch.cpp ill-formed in both
  builds. The libm branch of `Math::distance` (src/gpsmath.cpp:186-205) is
  ill-formed as well. The model follows the bodies as written:
  `Watch.Assign` models src/gpswatch.cpp:54-66, and `Backend.Libm` describes
  the libm branch of `calculate_rms` (src/gpsmath.cpp:92-94).
- The alarm callback is not called. `Watch.HandleFix` returns the call
  (`AlarmCall`: alarm, name, |distance|, event, user data), and
  `Gps.HandlePollFix` returns the calls of one dispatch in order. Alarm and
  user-data pointers are opaque `Handle`s, with 0 for NULL.
- The two virtual hooks of `Gps` are recorded in ghost history:
  `handle_fix` as the sequence `fixes` and `handle_timeout` as the count
  `timeouts`.
- The `std::map` of watches is a Dafny `map<string, Watch>` of distinct
  objects. Its iteration order is `KeyOrder.Ordered`: the keys in strictly
  increasing lexicographic order, i.e. `std::string`'s `operator<`.
- Pointers that may be NULL are `Option`s.
- `long` is 64 bits (LP64), so `LONG_MAX` = 2^63 - 1 and `ERANGE` = 34.
- Converting a `long` to `int` keeps the value modulo 2^32, as GCC does.
  Converting gpsd's `int` satellite count to `unsigned` is the same reduction
  modulo 2^32.

Where the specification and the code differ, the model follows the code:

- The classifier tests only for NaN before classifying, not for finiteness.
  With an infinite watch radius a fix is NEAR (`InfiniteRadiusIsNear`), and an
  infinite `eph` is clamped like any other large error.
- `Math::distance` returns the signed trigonometric value. Only `Watch`
  passes its absolute value to the alarm (`SignOfDistanceIrrelevant`).
- A fix with an infinite `eph` (infinite error components) is still valid:
  only latitude and longitude are required to be finite
  (`Poller.ParseRawGpsData`).

## Model

| member | source | states |
|---|---|---|
| Double.Neg | src/gpsmath.cpp:228 | negation keeps NaN as NaN and finite values finite, negating the real value, and swaps +inf and -inf |
| Double.Abs | src/gpsmath.cpp:207 | `fabs` is NaN exactly for NaN, finite exactly for finite values, and never negative |
| Double.Add | src/gpsmath.cpp:227 | the sum is NaN exactly when an operand is NaN or the operands are opposite infinities; finite sums are exact; a non-NaN sum is +inf exactly when an operand is +inf, and -inf exactly when an operand is -inf |
| Double.Sub | src/gpsmath.cpp:228 | the difference is NaN exactly when an operand is NaN or both are the same infinity; finite differences are exact; a non-NaN difference is +inf exactly when x is +inf or y is -inf, and -inf exactly when x is -inf or y is +inf |
| Double.Le | src/gpsmath.cpp:227 | `<=` is false whenever an operand is NaN, agrees with the real order on finite values, and on non-NaN values is the negation of `>` |
| Double.Lt | src/gpsmath.cpp:228 | `<` is false whenever an operand is NaN and on equal values, agrees with the real order on finite values, never has +inf on the left or -inf on the right, puts -inf below every finite value and +inf, and every finite value below +inf |
| Double.Scale | src/gpsmath.cpp:211-222 | multiplying by a positive constant keeps NaN, finiteness and the sign of an infinity, and scales a finite value exactly |
| SituTypes.ToUnsigned | src/gpspoller.cpp:93 | int to unsigned keeps values that fit and otherwise differs by a multiple of 2^32 |
| SituTypes.ToInt32 | src/gpsutil.cpp:105 | long to int keeps values that fit and otherwise differs by a multiple of 2^32 |
| GpsMath.IsFinite | src/gpsmath.cpp:63-66 | true exactly when the value is neither NaN nor an infinity |
| GpsMath.IsHypot | src/gpsmath.cpp:84-93 | the hypotenuse is +inf, NaN or a non-negative finite value; NaN exactly when an argument is NaN and neither is infinite; for finite arguments its square is x²+y² |
| GpsMath.HypotUnique | src/gpsmath.cpp:84-93 | the hypotenuse is determined by its arguments, so the value passed in is the one `hypot`/`mpfr_hypot` computes |
| GpsMath.CalculateRms | src/gpsmath.cpp:75-96 | with MPFR, fails exactly when the hypotenuse is NaN and then leaves `rms` unwritten; otherwise stores the hypotenuse (non-negative, squared equal to x²+y², or +inf) and succeeds; with libm it always succeeds |
| GpsMath.ErrorRadius | src/gpsmath.cpp:209-223 | the error radius is NaN exactly when eph is; on finite inputs it is 3·eph or 0.2·radius, and for eph ≥ 0 and radius > 0 it lies in [0, radius) |
| GpsMath.Classify | src/gpsmath.cpp:225-230 | a NaN distance or error radius gives UNKNOWN; on finite values with a non-negative error radius, NEAR implies the distance is within the radius and FAR that it is beyond it; with zero error the result is never UNKNOWN and is NEAR exactly when the distance is within the radius |
| GpsMath.Distance | src/gpsmath.cpp:98-233 | returns the signed trigonometric distance itself; a NaN distance or eph gives UNKNOWN; on finite values with eph ≥ 0 and a positive radius, NEAR puts the signed distance in [-radius, radius] and FAR outside it |
| GpsMath.ErrorRadiusClamp | src/gpsmath.cpp:210-223 | the error radius is 3·eph when 3·eph < radius and 0.2·radius otherwise |
| GpsMath.ErrorRadiusBelowRadius | src/gpsmath.cpp:210-223 | for radius > 0 and a non-negative or infinite eph, the error radius is finite and in [0, radius) |
| GpsMath.NearIffWholeErrorDiscInside | src/gpsmath.cpp:225-227 | NEAR exactly when every distance within the error radius of the measured one is inside the watch |
| GpsMath.FarIffWholeErrorDiscOutside | src/gpsmath.cpp:225-229 | FAR exactly when every distance within the error radius of the measured one is strictly outside the watch |
| GpsMath.UnknownIffErrorDiscStraddles | src/gpsmath.cpp:225-231 | on finite values, UNKNOWN exactly when the error disc has points both inside and outside the watch |
| GpsMath.NearAndFarTestsExclusive | src/gpsmath.cpp:227-228 | the NEAR test and the FAR test never both hold for a non-negative distance and error radius |
| GpsMath.NaNGivesUnknown | src/gpsmath.cpp:225-226 | a NaN distance, eph or watch radius classifies as UNKNOWN |
| GpsMath.SignOfDistanceIrrelevant | src/gpsmath.cpp:207-233 | negating the trigonometric distance leaves the classification alone and negates the returned distance |
| GpsMath.CentreIsNear | src/gpsmath.cpp:210-227 | a fix at the centre of a watch with positive radius is NEAR for any non-negative or infinite eph |
| GpsMath.InfiniteRadiusIsNear | src/gpsmath.cpp:225-227 | only NaN is tested: a finite distance is NEAR for an infinite watch radius |
| GpsWatch.Table | src/gpswatch.cpp:74-107 | a computed UNKNOWN fires nothing and keeps the stored state; otherwise the computed state is stored; ARRIVE exactly on entering NEAR; DEPART exactly on NEAR to FAR |
| GpsWatch.Step | src/gpswatch.cpp:68-109 | only the stored state changes; a FAR or NEAR state never becomes UNKNOWN; an alarm call happens exactly when the alarm is set and the table fires, and it carries the watch's name, alarm and user data, the event the transition table fires for the stored and computed states, and the absolute value of the trigonometric distance, which is non-negative |
| GpsWatch.Watch.Default | src/gpswatch.cpp:27-31 | the default watch is all zero, without alarm, in UNKNOWN |
| GpsWatch.Watch.constructor | src/gpswatch.cpp:33-38 | a new watch holds its arguments and starts in UNKNOWN |
| GpsWatch.Watch.Copy | src/gpswatch.cpp:44-52 | a copy has every field of the original, its learned state included |
| GpsWatch.Watch.Assign | src/gpswatch.cpp:54-66 | after assignment the watch equals the right-hand side as it was, self-assignment included |
| GpsWatch.Watch.HandleFix | src/gpswatch.cpp:68-109 | the new state and the alarm call are those of `Step` on the old state |
| GpsWatch.Run | src/gpswatch.cpp:74-107 | a sequence of classifications fires no NONE event and at most one event per classification |
| GpsWatch.RunUnknownOnlyIfNeverDefinite | src/gpswatch.cpp:104-107 | the stored state ends UNKNOWN exactly when it started UNKNOWN and every classification was UNKNOWN |
| GpsWatch.RunEventsAlternate | src/gpswatch.cpp:74-107 | the events of any run alternate ARRIVE, DEPART, ARRIVE, … starting with the one the stored state allows |
| GpsWatch.SteadyRunIsSilent | src/gpswatch.cpp:74 | classifications equal to the stored state or UNKNOWN fire nothing and change nothing |
| GpsWatch.RepeatedClassificationFiresAtMostOnce | src/gpswatch.cpp:74-107 | repeating one classification fires at most one event |
| GpsWatch.Steps | src/gpswatch.cpp:68-109 | successive `handle_fix` calls change only the stored state, make at most one alarm call per fix, each with the watch's alarm, name and user data, and none without an alarm |
| GpsWatch.StepsFollowRun | src/gpswatch.cpp:68-109 | successive steps of a watch end in the state `Run` computes over the fixes' classifications and, with an alarm set, make alarm calls whose events are exactly `Run`'s events, in order, so the `Run` lemmas hold of the alarm calls |
| GpsWatch.StepsEventsAlternate | src/gpswatch.cpp:68-109 | over any sequence of fixes, the alarm calls of a watch alternate ARRIVE and DEPART, starting with the one its stored state allows |
| GpsWatch.StepsNeverUnknownAgain | src/gpswatch.cpp:104-107 | once a watch has stored FAR or NEAR, no sequence of fixes returns it to UNKNOWN |
| GpsWatch.NearThroughUnknownArrivesOnce | src/gpswatch.cpp:74-107 | for a watch not already NEAR, NEAR, any number of UNKNOWN, NEAR fires exactly one ARRIVE, at the first NEAR, and ends NEAR |
| KeyOrder.Less | src/libsitu.h:95 | `std::string`'s `operator<`, lexicographic with a proper prefix first (`LessPrefix`, `LessFirstDifference`); no string is below itself |
| KeyOrder.LessPrefix | src/libsitu.h:95 | a proper prefix of a key orders before it |
| KeyOrder.LessFirstDifference | src/libsitu.h:95 | when two keys agree before position i and differ at i, the first is below exactly when its character at i is smaller |
| KeyOrder.LessIrreflexive | src/libsitu.h:95 | no key orders before itself |
| KeyOrder.LessTransitive | src/libsitu.h:95 | the key order is transitive |
| KeyOrder.LessTotal | src/libsitu.h:95 | any two distinct keys are ordered one way or the other |
| KeyOrder.OrderedIsSortedEnumeration | src/libsitu.cpp:90-93 | `Ordered`, the order in which the map is iterated, visits each key exactly once, in strictly increasing order |
| Situ.AlarmCalls | src/libsitu.cpp:90-93 | a dispatch makes no more alarm calls than it visits keys, each naming a visited watch with an event other than NONE (one call per watch at most is `AlarmCallsInKeyOrder`) |
| Situ.AlarmCallsInKeyOrder | src/libsitu.cpp:90-93 | the alarm calls of a dispatch come out in strictly increasing name order |
| Situ.AlarmCallsOfWatch | src/libsitu.cpp:90-93 | a watch appears among the alarm calls exactly when its own step calls its alarm, and every call naming it is that step's call, with its event, distance and user data |
| Situ.Gps.constructor | src/libsitu.cpp:32-48 | a new coordinator has no watches and the zero last fix, and it is polling exactly when the poller thread was created |
| Situ.Gps.AddWatch | src/libsitu.cpp:64-72 | `name` maps to a new watch in UNKNOWN, replacing any learned state, and every other watch is unchanged |
| Situ.Gps.RemoveWatch | src/libsitu.cpp:74-79 | `name` is gone, a no-op if absent, and every other watch is unchanged |
| Situ.Gps.HandlePollFix | src/libsitu.cpp:81-96 | the last fix becomes `fix` and the hook sees it; every watch takes exactly one step; the key set is kept; the alarm calls are those of the watches in key order |
| Situ.Gps.DispatchFix | src/libsitu.cpp:90-93 | the loop steps every watch once, in key order, and collects their alarm calls in that order |
| Situ.Gps.StepWatch | src/libsitu.cpp:92 | one watch takes its step and no other watch changes |
| Situ.Gps.HandlePollTimeout | src/libsitu.cpp:98-101 | only the timeout hook runs; the watches and the last fix are unchanged |
| Situ.Gps.GetLastFix | src/libsitu.cpp:123-127 | the most recently dispatched fix, or the zero invalid fix before any |
| Situ.Gps.StartPolling | src/libsitu.cpp:150-162 | a no-op while polling; otherwise polling starts exactly when the thread was created |
| Situ.Gps.StopPolling | src/libsitu.cpp:164-188 | polling has stopped afterwards, whatever cancel and join report |
| Poller.ParsedFix | src/gpspoller.cpp:36-138 | the fix a report yields is valid exactly when the report yields a fix, and then has a finite position and eph equal to the hypotenuse; speed and track are present only for a report with a position and their fields set, and are zero when absent; with a position and a computable RMS it carries the report's position and the wrapped satellite count |
| Poller.ParseRawGpsData | src/gpspoller.cpp:36-138 | the fix written is `ParsedFix` of the report, and the result is `data.valid`. The fix is valid exactly when the report has packet, status (FIX or DGPS_FIX), mode (2D or 3D), position and error fields, the RMS computes, and latitude and longitude are finite. Otherwise, before the RMS step, the fix is all zero. After it, it carries the position, eph = RMS and the wrapped satellite count, with speed and track present exactly when their fields are set |
| Poller.PollCycle | src/gpspoller.cpp:160-178 | data that parses is dispatched once, the dispatched fix being `ParsedFix` of the report, and nothing else happens; a NULL read or a failed parse changes nothing; no data reports exactly one timeout and changes no watch |
| GpsUtil.EventStr | src/gpsutil.cpp:32-37 | the name is one of "APPROACH", "DEPART" and "INVALID": "APPROACH" for ARRIVE, "DEPART" for DEPART and "INVALID" for NONE |
| GpsUtil.EventStrNames | src/gpsutil.cpp:32-37 | ARRIVE is "APPROACH", DEPART is "DEPART", NONE is "INVALID", and distinct events have distinct names |
| GpsUtil.Strtol | src/gpsutil.cpp:86 | the result lies in the range of long; without digits nothing is converted and errno is untouched; ERANGE comes with LONG_MAX or LONG_MIN; the end is just after a maximal digit run |
| GpsUtil.StrtolFormat | src/gpsutil.cpp:86 | reading back a decimal number stops right after it and yields the number, or the nearer limit with ERANGE |
| GpsUtil.StrtolSpelled | src/gpsutil.cpp:86 | an optional sign and digits in any spelling (a '+', leading zeros) followed by a non-digit read back as their value, ending right after the digits, or the nearer limit with ERANGE |
| GpsUtil.StrtolSkipsSpace | src/gpsutil.cpp:86 | leading white space changes only where the conversion ends |
| GpsUtil.ParseStringToInteger | src/gpsutil.cpp:69-111 | succeeds exactly when both pointers are non-NULL and the string is accepted; on failure `*val` is untouched; on success it holds the parsed long narrowed to int |
| GpsUtil.AcceptsFormatted | src/gpsutil.cpp:86-106 | the canonical decimal spelling of v, after any white space, is accepted exactly when v fits in a long, and then parses to v |
| GpsUtil.AcceptsSpelled | src/gpsutil.cpp:86-106 | white space, an optional '+' or '-' and at least one digit, leading zeros allowed, with nothing after them, are accepted exactly when the value fits in a long, and then parse to that value |
| GpsUtil.AcceptedIsSpelled | src/gpsutil.cpp:86-106 | conversely, every accepted string is white space, an optional sign and at least one digit, followed by nothing or a NUL |
| GpsUtil.TrailingRejected | src/gpsutil.cpp:97-100 | white space, a sign and digits followed by a character other than NUL and a digit are refused |
| GpsUtil.NoDigitsRejected | src/gpsutil.cpp:94-96 | a string without digits is refused |
| GpsUtil.NarrowingTruncates | src/gpsutil.cpp:105 | "4294967297" is accepted and stores 1 |
| GpsUtil.ParseStringToIntegerChecked | src/gpsutil.cpp:86-106 | as the parser, but a value outside the range of int is refused, so on success `*val` equals the parsed number |
| GpsUtil.CheckedRoundTrip | src/gpsutil.cpp:86-106 | every int written in decimal, after any white space, is accepted with exactly its value |

## Left out

- The spherical trigonometry of `Math::distance` (degrees to radians, sines, cosines, `acos`, the MPFR calls) is not modelled. It is the opaque parameter `trig`. The libm branch of that computation (src/gpsmath.cpp:186-205) multiplies where the MPFR branch adds, and declares `BB` twice in the same scope (src/gpsmath.cpp:198-199), so it does not compile. This has no bearing on the model.
- Floating-point rounding and overflow to infinity are not modelled: finite arithmetic is exact on reals. The square root inside `hypot` is described by `IsHypot`, not computed.
- `Gps`'s mutex, the poller thread, `pthread_create`/`cancel`/`join` and the destructor are not modelled. Thread creation success is the boolean `threadCreated`, and cancel and join results have no effect in the source.
- The poll loop itself is not modelled: the gpsd connection and stream setup, `waiting`, `read`, `nanosleep` and the cancel-state toggling. Only one turn's decision is (`PollCycle`), with the wait and read results as parameters.
- `Util::dump_fix_json` only prints. The host and port are kept as constants that the constructor sets; only their getters are not modelled, and neither are the logging macros.
- gps.h is not part of this model. The gpsd status and mode codes use their customary values (0, 1, 2; 0, 1, 2, 3), and the field-present bits are a set of flags.
- C strings are Dafny strings, so a C string cannot be unterminated. An embedded NUL ends the number just as the terminator does. Watch names with an embedded NUL are distinct keys in the model, whereas the `std::string` that `add_watch` and `remove_watch` build from a `const char *` (src/libsitu.cpp:70) stops at the first NUL.
- A NULL watch name cannot be expressed, because names are `string`s. In `add_watch` and `remove_watch` (src/libsitu.cpp:70 and :77) a NULL `name` is turned into a `std::string` after `lock_watches()`. That is undefined behaviour; libstdc++ throws with the mutex still held.
- `Event` values outside the three named ones cannot be represented, so "anything else" in `event_str` is only NONE.
- `strtol` is modelled in the "C" locale for base 10 only.

## Findings

| source | as written | input that shows it | evidently intended | confidence | as-written member | corrected member |
|---|---|---|---|---|---|---|
| src/gpsutil.cpp:105 | the parsed `long` is stored into `int` without a range check | "4294967297" (2^32 + 1) is accepted and stores 1 | refuse values outside the range of int, leaving `*val` untouched | high; not executed | GpsUtil.NarrowingTruncates | GpsUtil.ParseStringToIntegerChecked |
