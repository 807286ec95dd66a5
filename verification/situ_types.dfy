/** The public value types of the library: events, fixes and the
    arguments an alarm callback receives. */
module SituTypes {
  import opened Double

  datatype Option<+T> = None | Some(value: T)

  /** A transition event delivered to a watch's alarm */
  datatype Event = NONE | ARRIVE | DEPART

  /** An unsigned 32-bit count */
  newtype Unsigned = n: int | 0 <= n < 0x1_0000_0000

  /** A signed 32-bit int */
  newtype Int32 = n: int | -0x8000_0000 <= n < 0x8000_0000

  /** Conversion of an integer to unsigned: reduction modulo 2^32 */
  function ToUnsigned(n: int): (r: Unsigned)
    ensures 0 <= n < 0x1_0000_0000 ==> r as int == n
    ensures (r as int - n) % 0x1_0000_0000 == 0
  {
    (n % 0x1_0000_0000) as Unsigned
  }

  /** Conversion of an integer to int as GCC performs it: the value modulo
      2^32, read back in two's complement */
  function ToInt32(n: int): (r: Int32)
    ensures -0x8000_0000 <= n < 0x8000_0000 ==> r as int == n
    ensures (r as int - n) % 0x1_0000_0000 == 0
  {
    var m := n % 0x1_0000_0000;
    if m < 0x8000_0000 then m as Int32 else (m - 0x1_0000_0000) as Int32
  }

  /** One snapshot of position knowledge */
  datatype Fix = Fix(
    valid: bool,
    latitude: Num,
    longitude: Num,
    eph: Num,
    hasSpeed: bool,
    speed: Num,
    eps: Num,
    hasTrack: bool,
    track: Num,
    satellitesUsed: Unsigned)

  /** The all-zero fix: what a value-initialised or memset-to-zero Fix holds */
  const ZeroFix: Fix :=
    Fix(false, Fin(0.0), Fin(0.0), Fin(0.0), false, Fin(0.0), Fin(0.0), false, Fin(0.0), 0)

  /** An opaque handle: the alarm function pointer or the user data pointer
      (0 stands for NULL) */
  type Handle = nat

  /** One invocation of a watch alarm: (*alarm)(name, distance, event, data) */
  datatype AlarmCall = AlarmCall(alarm: Handle, name: string, distance: Num, event: Event, data: Handle)
}
