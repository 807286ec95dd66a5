/** Small utilities: the name of an event, and the whole-string decimal
    parser built on the C library's strtol (section 7.22.1.4 of ISO C11,
    base 10, with a 64-bit long). */
module GpsUtil {
  import opened SituTypes

  /** Util::event_str */
  function EventStr(event: Event): (s: string)
    ensures s == "APPROACH" || s == "DEPART" || s == "INVALID"
    ensures event == ARRIVE ==> s == "APPROACH"
    ensures event == DEPART ==> s == "DEPART"
    ensures event == NONE ==> s == "INVALID"
  {
    if event == ARRIVE then "APPROACH"
    else if event == DEPART then "DEPART"
    else "INVALID"
  }

  /** ARRIVE is named "APPROACH", DEPART "DEPART", and NONE falls through
      to "INVALID"; no two events share a name */
  lemma EventStrNames(e: Event, e': Event)
    ensures EventStr(e) == "APPROACH" <==> e == ARRIVE
    ensures EventStr(e) == "DEPART" <==> e == DEPART
    ensures EventStr(e) == "INVALID" <==> e == NONE
    ensures EventStr(e) == EventStr(e') ==> e == e'
  {
  }

  // ---------------------------------------------------------------------
  // strtol

  const LONG_MAX: int := 0x7fff_ffff_ffff_ffff
  const LONG_MIN: int := -0x8000_0000_0000_0000
  const ERANGE: int := 34

  /** isspace in the "C" locale */
  predicate IsSpace(c: char)
  {
    c == ' ' || c == '\t' || c == '\n' || c == '\U{000B}' || c == '\U{000C}' || c == '\r'
  }

  predicate IsDigit(c: char)
  {
    '0' <= c <= '9'
  }

  function DigitValue(c: char): (d: nat)
    requires IsDigit(c)
    ensures d < 10
  {
    (c as int - '0' as int) as nat
  }

  /** The index of the first character at or after i that is not white space */
  function SkipSpace(s: string, i: nat): (r: nat)
    requires i <= |s|
    ensures i <= r <= |s|
    ensures forall k :: i <= k < r ==> IsSpace(s[k])
    ensures r < |s| ==> !IsSpace(s[r])
    decreases |s| - i
  {
    if i < |s| && IsSpace(s[i]) then SkipSpace(s, i + 1) else i
  }

  /** The end of the longest run of decimal digits starting at i */
  function DigitRun(s: string, i: nat): (r: nat)
    requires i <= |s|
    ensures i <= r <= |s|
    ensures forall k :: i <= k < r ==> IsDigit(s[k])
    ensures r < |s| ==> !IsDigit(s[r])
    decreases |s| - i
  {
    if i < |s| && IsDigit(s[i]) then DigitRun(s, i + 1) else i
  }

  predicate AllDigits(d: string)
  {
    forall k :: 0 <= k < |d| ==> IsDigit(d[k])
  }

  /** The value of a string of decimal digits, most significant first */
  function DigitsValue(d: string): nat
    requires AllDigits(d)
    decreases |d|
  {
    if d == [] then 0
    else DigitsValue(d[..|d| - 1]) * 10 + DigitValue(d[|d| - 1])
  }

  /** What strtol(nptr, &endptr, 10) returns, the offset of endptr from
      nptr, and the errno it leaves (0 when it does not set errno) */
  datatype Conversion = Conversion(value: int, end: nat, errno: int)

  /** strtol in base 10: white space, an optional sign, then the longest run
      of digits; without digits nothing is converted and endptr is nptr */
  function Strtol(s: string): (r: Conversion)
    ensures LONG_MIN <= r.value <= LONG_MAX
    ensures r.end <= |s|
    ensures r.errno == 0 || r.errno == ERANGE
    ensures r.errno == ERANGE ==> r.end != 0 && (r.value == LONG_MAX || r.value == LONG_MIN)
    ensures r.end == 0 ==> r.value == 0 && r.errno == 0
    ensures r.end != 0 ==> IsDigit(s[r.end - 1]) && (r.end == |s| || !IsDigit(s[r.end]))
  {
    var i := SkipSpace(s, 0);
    var negative := i < |s| && s[i] == '-';
    var j := if i < |s| && (s[i] == '+' || s[i] == '-') then i + 1 else i;
    var k := DigitRun(s, j);
    if k == j then Conversion(0, 0, 0)
    else
      var magnitude := DigitsValue(s[j..k]);
      var v: int := if negative then -(magnitude as int) else magnitude;
      if v > LONG_MAX then Conversion(LONG_MAX, k, ERANGE)
      else if v < LONG_MIN then Conversion(LONG_MIN, k, ERANGE)
      else Conversion(v, k, 0)
  }

  function DigitChar(d: nat): (c: char)
    requires d < 10
    ensures IsDigit(c) && DigitValue(c) == d
  {
    ('0' as int + d) as char
  }

  /** The shortest decimal spelling of n */
  function Decimal(n: nat): (d: string)
    ensures |d| >= 1 && AllDigits(d)
  {
    if n < 10 then [DigitChar(n)] else Decimal(n / 10) + [DigitChar(n % 10)]
  }

  /** The decimal spelling of v, with a minus sign when it is negative */
  function Format(v: int): (s: string)
    ensures |s| >= 1
  {
    if v < 0 then "-" + Decimal(-v) else Decimal(v)
  }

  lemma {:induction false} DecimalValue(n: nat)
    ensures DigitsValue(Decimal(n)) == n
  {
    if n >= 10 {
      var d := Decimal(n);
      assert d[..|d| - 1] == Decimal(n / 10);
      DecimalValue(n / 10);
    }
  }

  /** Reading back a formatted number followed by anything that does not
      start with a digit: strtol stops right after the number and returns
      it, or the nearer limit with ERANGE when it does not fit in a long */
  lemma StrtolFormat(v: int, rest: string)
    requires rest == [] || !IsDigit(rest[0])
    ensures Strtol(Format(v) + rest) ==
      if v > LONG_MAX then Conversion(LONG_MAX, |Format(v)|, ERANGE)
      else if v < LONG_MIN then Conversion(LONG_MIN, |Format(v)|, ERANGE)
      else Conversion(v, |Format(v)|, 0)
  {
    var f := Format(v);
    var s := f + rest;
    var m: nat := if v < 0 then -v else v;
    var j := if v < 0 then 1 else 0;
    assert f[j..] == Decimal(m);
    assert s[0] == f[0];
    assert IsDigit(f[0]) || f[0] == '-';
    assert SkipSpace(s, 0) == 0;
    assert s[0] == '-' <==> v < 0;
    assert forall k :: j <= k < |f| ==> IsDigit(s[k]) by {
      forall k | j <= k < |f| ensures IsDigit(s[k]) {
        assert s[k] == Decimal(m)[k - j];
      }
    }
    assert |f| < |s| ==> s[|f|] == rest[0];
    var e := DigitRun(s, j);
    assert e == |f|;
    assert s[j..e] == Decimal(m);
    DecimalValue(m);
  }

  /** No sign, a plus or a minus */
  predicate IsSign(sign: string)
  {
    |sign| <= 1 && (|sign| == 1 ==> sign[0] == '+' || sign[0] == '-')
  }

  /** The value a sign and a run of digits spell */
  function SignedValue(sign: string, digits: string): int
    requires AllDigits(digits)
  {
    if sign != [] && sign[0] == '-' then -(DigitsValue(digits) as int) else DigitsValue(digits)
  }

  /** Reading an optional sign and digits, in any spelling (a '+', leading
      zeros), followed by anything that does not start with a digit:
      strtol stops right after the digits and returns their value, or the
      nearer limit with ERANGE when it does not fit in a long */
  lemma StrtolSpelled(sign: string, digits: string, rest: string)
    requires IsSign(sign)
    requires |digits| >= 1 && AllDigits(digits)
    requires rest == [] || !IsDigit(rest[0])
    ensures var v := SignedValue(sign, digits);
      Strtol(sign + digits + rest) ==
        if v > LONG_MAX then Conversion(LONG_MAX, |sign| + |digits|, ERANGE)
        else if v < LONG_MIN then Conversion(LONG_MIN, |sign| + |digits|, ERANGE)
        else Conversion(v, |sign| + |digits|, 0)
  {
    SpelledParts(sign, digits, rest);
  }

  /** Where strtol's pieces lie in a sign, digits and a rest */
  lemma SpelledParts(sign: string, digits: string, rest: string)
    requires IsSign(sign)
    requires |digits| >= 1 && AllDigits(digits)
    requires rest == [] || !IsDigit(rest[0])
    ensures var s := sign + digits + rest;
      && SkipSpace(s, 0) == 0
      && ((s[0] == '+' || s[0] == '-') <==> |sign| == 1)
      && (s[0] == '-' <==> sign != [] && sign[0] == '-')
      && DigitRun(s, |sign|) == |sign| + |digits|
      && s[|sign|..|sign| + |digits|] == digits
  {
    ConcatAssoc(sign, digits, rest);
    SignedStart(sign, digits + rest);
    SignedDigits(sign, digits, rest);
  }

  /** A sign, or the first digit when there is none, starts the string */
  lemma SignedStart(sign: string, t: string)
    requires IsSign(sign)
    requires |t| >= 1 && IsDigit(t[0])
    ensures var s := sign + t;
      && SkipSpace(s, 0) == 0
      && ((s[0] == '+' || s[0] == '-') <==> |sign| == 1)
      && (s[0] == '-' <==> sign != [] && sign[0] == '-')
  {
    var s := sign + t;
    assert s[0] == if sign == [] then t[0] else sign[0];
    assert !IsSpace(s[0]);
  }

  /** The digits after the sign are the run DigitRun finds */
  lemma SignedDigits(sign: string, digits: string, rest: string)
    requires |digits| >= 1 && AllDigits(digits)
    requires rest == [] || !IsDigit(rest[0])
    ensures var s := sign + (digits + rest);
      && DigitRun(s, |sign|) == |sign| + |digits|
      && s[|sign|..|sign| + |digits|] == digits
  {
    var t := digits + rest;
    var s := sign + t;
    DigitsThenRest(digits, rest);
    DigitRunShift(sign, t, 0);
    assert DigitRun(s, |sign|) == |sign| + |digits|;
    assert s[|sign|..|sign| + |digits|] == t[0..|digits|];
  }

  /** DigitRun finds exactly the digits before the rest */
  lemma DigitsThenRest(digits: string, rest: string)
    requires |digits| >= 1 && AllDigits(digits)
    requires rest == [] || !IsDigit(rest[0])
    ensures DigitRun(digits + rest, 0) == |digits|
    ensures (digits + rest)[0..|digits|] == digits
  {
    var t := digits + rest;
    assert forall m :: 0 <= m < |digits| ==> IsDigit(t[m]) by {
      forall m | 0 <= m < |digits| ensures IsDigit(t[m]) {
        assert t[m] == digits[m];
      }
    }
    assert |digits| < |t| ==> t[|digits|] == rest[0];
    DigitRunExact(t, 0, |digits|);
  }

  lemma ConcatAssoc(a: string, b: string, c: string)
    ensures a + b + c == a + (b + c)
  {
  }

  /** A run of digits ended by a non-digit or the end is what DigitRun finds */
  lemma DigitRunExact(s: string, j: nat, k: nat)
    requires j <= k <= |s|
    requires forall m :: j <= m < k ==> IsDigit(s[m])
    requires k == |s| || !IsDigit(s[k])
    ensures DigitRun(s, j) == k
  {
  }

  /** Leading white space changes nothing but the end offset */
  lemma StrtolSkipsSpace(ws: string, t: string)
    requires forall k :: 0 <= k < |ws| ==> IsSpace(ws[k])
    requires t == [] || !IsSpace(t[0])
    ensures Strtol(ws + t).value == Strtol(t).value
    ensures Strtol(ws + t).errno == Strtol(t).errno
    ensures Strtol(ws + t).end == if Strtol(t).end == 0 then 0 else |ws| + Strtol(t).end
  {
    var s := ws + t;
    assert SkipSpace(s, 0) == |ws| by {
      assert forall k :: 0 <= k < |ws| ==> IsSpace(s[k]);
      assert |ws| < |s| ==> s[|ws|] == t[0];
    }
    assert SkipSpace(t, 0) == 0;
    var j := if |ws| < |s| && (s[|ws|] == '+' || s[|ws|] == '-') then |ws| + 1 else |ws|;
    var j' := j - |ws|;
    DigitRunShift(ws, t, j');
  }

  lemma DigitRunShift(ws: string, t: string, j: nat)
    requires j <= |t|
    ensures DigitRun(ws + t, |ws| + j) == |ws| + DigitRun(t, j)
    ensures (ws + t)[|ws| + j..DigitRun(ws + t, |ws| + j)] == t[j..DigitRun(t, j)]
    decreases |t| - j
  {
    if j < |t| && IsDigit(t[j]) {
      DigitRunShift(ws, t, j + 1);
    }
  }

  /** The whole string, up to its terminating NUL, was consumed */
  predicate AtEnd(s: string, end: nat)
  {
    end == |s| || (end < |s| && s[end] == '\0')
  }

  /** What parse_string_to_integer accepts: strtol sets no range error,
      converts something, and stops at the end of the string */
  predicate Accepts(s: string)
  {
    var c := Strtol(s);
    !((c.errno == ERANGE && (c.value == LONG_MAX || c.value == LONG_MIN)) || (c.errno != 0 && c.value == 0)) &&
    c.end != 0 && AtEnd(s, c.end)
  }

  /** Util::parse_string_to_integer(str, val), as written.  `str` and `val`
      are None for NULL; `val` otherwise holds the int that `*val` refers to,
      and `written` is that int afterwards. */
  method ParseStringToInteger(str: Option<string>, val: Option<Int32>) returns (retval: bool, written: Option<Int32>)
    ensures retval <==> str.Some? && val.Some? && Accepts(str.value)
    ensures !retval ==> written == val
    ensures retval ==> written == Some(ToInt32(Strtol(str.value).value))
  {
    retval := false;
    written := val;
    if str.None? || val.None? {
      retval := false;
    } else {
      var s := str.value;
      var errno := 0;
      var conversion := Strtol(s);
      errno := conversion.errno;
      var parsedVal := conversion.value;
      var endptr := conversion.end;
      if (errno == ERANGE && (parsedVal == LONG_MAX || parsedVal == LONG_MIN)) || (errno != 0 && parsedVal == 0) {
        retval := false;
      } else if endptr == 0 {
        retval := false;
      } else if !AtEnd(s, endptr) {
        retval := false;
      } else {
        written := Some(ToInt32(parsedVal));
        retval := true;
      }
    }
  }

  /** The canonical decimal spelling of v, after any white space, is
      accepted exactly when v fits in a long, and then reads back as v */
  lemma AcceptsFormatted(ws: string, v: int)
    requires forall k :: 0 <= k < |ws| ==> IsSpace(ws[k])
    ensures Accepts(ws + Format(v)) <==> LONG_MIN <= v <= LONG_MAX
    ensures LONG_MIN <= v <= LONG_MAX ==> Strtol(ws + Format(v)).value == v
  {
    var f := Format(v);
    StrtolFormat(v, []);
    assert f + [] == f;
    assert !IsSpace(f[0]);
    StrtolSkipsSpace(ws, f);
  }

  /** Any spelling of a number: white space, an optional sign and at least
      one digit, leading zeros allowed, with nothing after the digits, is
      accepted exactly when its value fits in a long, and then reads back
      as that value */
  lemma AcceptsSpelled(ws: string, sign: string, digits: string)
    requires forall k :: 0 <= k < |ws| ==> IsSpace(ws[k])
    requires IsSign(sign)
    requires |digits| >= 1 && AllDigits(digits)
    ensures Accepts(ws + sign + digits) <==> LONG_MIN <= SignedValue(sign, digits) <= LONG_MAX
    ensures LONG_MIN <= SignedValue(sign, digits) <= LONG_MAX ==>
      Strtol(ws + sign + digits).value == SignedValue(sign, digits)
  {
    var t := sign + digits;
    var s := ws + sign + digits;
    assert s == ws + t;
    StrtolSpelled(sign, digits, []);
    assert t + [] == t;
    assert t[0] == if sign == [] then digits[0] else sign[0];
    StrtolSkipsSpace(ws, t);
    var c := Strtol(t);
    assert c.end == |t|;
    assert Strtol(s) == Conversion(c.value, |s|, c.errno);
  }

  /** The shape of every accepted string */
  predicate Spelling(s: string, ws: string, sign: string, digits: string, tail: string)
  {
    && s == ws + sign + digits + tail
    && (forall k :: 0 <= k < |ws| ==> IsSpace(ws[k]))
    && (IsSign(sign))
    && |digits| >= 1 && AllDigits(digits)
    && (tail == [] || tail[0] == '\0')
  }

  /** Conversely, every accepted string is white space, an optional sign
      and at least one digit, followed by nothing or by a NUL */
  lemma AcceptedIsSpelled(s: string)
    requires Accepts(s)
    ensures exists ws, sign, digits, tail :: Spelling(s, ws, sign, digits, tail)
  {
    var i, j, k := StrtolParts(s);
    SplitSpelling(s, i, j, k);
    assert Spelling(s, s[..i], s[i..j], s[j..k], s[k..]);
  }

  /** The pieces strtol finds, when it stops at the end, spell the string */
  lemma SplitSpelling(s: string, i: nat, j: nat, k: nat)
    requires i <= j < k <= |s|
    requires forall m :: 0 <= m < i ==> IsSpace(s[m])
    requires IsSign(s[i..j])
    requires forall m :: j <= m < k ==> IsDigit(s[m])
    requires AtEnd(s, k)
    ensures Spelling(s, s[..i], s[i..j], s[j..k], s[k..])
  {
    var ws, sign, digits, tail := s[..i], s[i..j], s[j..k], s[k..];
    assert forall m :: 0 <= m < |ws| ==> IsSpace(ws[m]) by {
      forall m | 0 <= m < |ws| ensures IsSpace(ws[m]) {
        assert ws[m] == s[m];
      }
    }
    assert AllDigits(digits) by {
      forall m | 0 <= m < |digits| ensures IsDigit(digits[m]) {
        assert digits[m] == s[j + m];
      }
    }
    assert tail == [] || tail[0] == '\0';
    assert s == ws + sign + digits + tail by {
      assert s[..i] + s[i..j] == s[..j];
      assert s[..j] + s[j..k] == s[..k];
      assert s[..k] + s[k..] == s;
    }
    assert Spelling(s, ws, sign, digits, tail);
  }

  /** How strtol splits a string: white space up to i, a sign up to j, the
      digits up to k */
  lemma StrtolParts(s: string) returns (i: nat, j: nat, k: nat)
    ensures i <= j <= k <= |s|
    ensures forall m :: 0 <= m < i ==> IsSpace(s[m])
    ensures IsSign(s[i..j])
    ensures forall m :: j <= m < k ==> IsDigit(s[m])
    ensures Strtol(s).end == if k == j then 0 else k
  {
    i := SkipSpace(s, 0);
    j := if i < |s| && (s[i] == '+' || s[i] == '-') then i + 1 else i;
    k := DigitRun(s, j);
    assert j > i ==> s[i..j] == [s[i]];
  }

  /** Trailing characters after the number are refused */
  lemma TrailingRejected(ws: string, sign: string, digits: string, rest: string)
    requires forall k :: 0 <= k < |ws| ==> IsSpace(ws[k])
    requires IsSign(sign)
    requires |digits| >= 1 && AllDigits(digits)
    requires rest != [] && rest[0] != '\0' && !IsDigit(rest[0])
    ensures !Accepts(ws + sign + digits + rest)
  {
    var t := sign + digits + rest;
    var s := ws + sign + digits + rest;
    assert s == ws + t;
    StrtolSpelled(sign, digits, rest);
    assert t[0] == if sign == [] then digits[0] else sign[0];
    StrtolSkipsSpace(ws, t);
    var c := Strtol(t);
    assert c.end == |sign| + |digits|;
    assert Strtol(s).end == |ws| + c.end;
    assert s[|ws| + c.end] == rest[0];
  }

  /** A string without any digit is refused */
  lemma NoDigitsRejected(s: string)
    requires forall k :: 0 <= k < |s| ==> !IsDigit(s[k])
    ensures !Accepts(s)
  {
  }

  // ---------------------------------------------------------------------
  // The narrowing of the parsed long to int

  /** As written, a value that fits in a long but not in an int is
      accepted and truncated: "4294967297" (2^32 + 1) yields 1 */
  lemma NarrowingTruncates(v: int)
    requires v == 0x1_0000_0001
    ensures Accepts(Format(v))
    ensures ToInt32(Strtol(Format(v)).value) == 1
  {
    AcceptsFormatted([], v);
    assert [] + Format(v) == Format(v);
    assert Strtol(Format(v)).value == v;
    assert v % 0x1_0000_0000 == 1 by {
      assert v == 0x1_0000_0000 + 1;
    }
  }

  /** What parse_string_to_integer evidently means: the same acceptance,
      except that a value outside the range of int is refused too, so that
      on success *val holds exactly the number written */
  method ParseStringToIntegerChecked(str: Option<string>, val: Option<Int32>) returns (retval: bool, written: Option<Int32>)
    ensures retval <==> (str.Some? && val.Some? && Accepts(str.value) &&
                         -0x8000_0000 <= Strtol(str.value).value < 0x8000_0000)
    ensures !retval ==> written == val
    ensures retval ==> written.Some? && written.value as int == Strtol(str.value).value
  {
    retval := false;
    written := val;
    if str.None? || val.None? {
      retval := false;
    } else {
      var s := str.value;
      var conversion := Strtol(s);
      var errno := conversion.errno;
      var parsedVal := conversion.value;
      var endptr := conversion.end;
      if (errno == ERANGE && (parsedVal == LONG_MAX || parsedVal == LONG_MIN)) || (errno != 0 && parsedVal == 0) {
        retval := false;
      } else if endptr == 0 {
        retval := false;
      } else if !AtEnd(s, endptr) {
        retval := false;
      } else if parsedVal < -0x8000_0000 || parsedVal >= 0x8000_0000 {
        retval := false;
      } else {
        written := Some(parsedVal as Int32);
        retval := true;
      }
    }
  }

  /** The corrected parser reads back every int it is given in decimal,
      after any white space */
  lemma CheckedRoundTrip(ws: string, v: Int32)
    requires forall k :: 0 <= k < |ws| ==> IsSpace(ws[k])
    ensures Accepts(ws + Format(v as int))
    ensures Strtol(ws + Format(v as int)).value == v as int
  {
    AcceptsFormatted(ws, v as int);
  }
}
