/** resolve_time and the two timestamp patterns of the YAML 1.1 timestamp type:

      ymd:       YYYY-M[M]-D[D]
      timestamp: YYYY-M[M]-D[D] ( (T | t | blanks) H[H]:MM:SS [.fraction]
                                  [ blanks* (Z | (+|-)H[H] [:[MM]]) ] )?

    The patterns are recognised by hand. A recognised text is described by its Captures,
    the pieces the pattern's groups hold, and Render puts the pieces back together; the
    recogniser is proved to accept exactly the renderings of well-formed captures. The
    fields are then read with strconv.Atoi, as resolve_time does, into the arguments it
    passes to time.Date. */
module Timestamps {
  import opened Outcomes
  import opened Text
  import opened TwosComplement
  import opened Numerals

  // ---------------------------------------------------------------------------
  // The grammar: captures, well-formedness, rendering
  // ---------------------------------------------------------------------------

  /** The optional zone at the end of a timestamp: absent, "Z" after optional blanks, or a
      signed hour offset after optional blanks, with a colon and two minute digits, a bare
      colon, or neither. */
  datatype Zone =
    | NoZone
    | Utc(blanks: string)
    | Offset(blanks: string, sign: char, hours: string, colon: bool, minutes: string)

  /** The part of a timestamp after the date: the separator (T, t or blanks), the clock
      fields, the digits after a '.', if there is one, and the zone. */
  datatype Clock = Clock(sep: string, hour: string, minute: string, second: string,
                         fraction: Option<string>, zone: Zone)

  datatype Captures = Captures(year: string, month: string, day: string, clock: Option<Clock>)

  /** Between lo and hi ASCII digits. */
  predicate Digits(d: string, lo: nat, hi: nat) {
    lo <= |d| <= hi && AllDigits(d)
  }

  predicate ValidSep(sep: string) {
    sep == "T" || sep == "t" || (sep != [] && AllBlanks(sep))
  }

  predicate ZoneWellFormed(z: Zone) {
    match z
    case NoZone => true
    case Utc(b) => AllBlanks(b)
    case Offset(b, sign, h, colon, m) =>
      && AllBlanks(b) && (sign == '-' || sign == '+') && Digits(h, 1, 2)
      && (if colon then m == [] || Digits(m, 2, 2) else m == [])
  }

  predicate ClockWellFormed(k: Clock) {
    && ValidSep(k.sep) && Digits(k.hour, 1, 2) && Digits(k.minute, 2, 2) && Digits(k.second, 2, 2)
    && (k.fraction.Some? ==> AllDigits(k.fraction.value))
    && ZoneWellFormed(k.zone)
  }

  predicate WellFormed(c: Captures) {
    && Digits(c.year, 4, 4) && Digits(c.month, 1, 2) && Digits(c.day, 1, 2)
    && (c.clock.Some? ==> ClockWellFormed(c.clock.value))
  }

  // The renderings nest to the right, in the order the recogniser splits the text.

  function RenderZone(z: Zone): string {
    match z
    case NoZone => ""
    case Utc(b) => b + "Z"
    case Offset(b, sign, h, colon, m) => b + ([sign] + (h + (if colon then [':'] + m else [])))
  }

  /** The fraction, if any, and the zone. */
  function RenderTail(f: Option<string>, z: Zone): string {
    match f
    case None => RenderZone(z)
    case Some(digits) => ['.'] + (digits + RenderZone(z))
  }

  /** A clock after its separator. */
  function RenderTime(k: Clock): string {
    k.hour + ([':'] + (k.minute + ([':'] + (k.second + RenderTail(k.fraction, k.zone)))))
  }

  function RenderClock(k: Clock): string {
    k.sep + RenderTime(k)
  }

  function RenderClockIfAny(clock: Option<Clock>): string {
    if clock.None? then [] else RenderClock(clock.value)
  }

  function Render(c: Captures): string {
    c.year + (['-'] + (c.month + (['-'] + (c.day + RenderClockIfAny(c.clock)))))
  }

  // ---------------------------------------------------------------------------
  // The recogniser
  // ---------------------------------------------------------------------------

  /** The text after a prefix. */
  function Rest(s: string, d: string): (r: string)
    requires d <= s
    ensures s == d + r
  {
    s[|d|..]
  }

  /** The longest prefix of s made of at most hi digits. */
  function TakeDigits(s: string, hi: nat): (d: string)
    ensures |d| <= hi && d <= s && AllDigits(d)
  {
    if s == [] || hi == 0 || !IsDigit(s[0]) then []
    else
      var d := [s[0]] + TakeDigits(s[1..], hi - 1);
      assert forall i | 1 <= i < |d| :: d[i] == TakeDigits(s[1..], hi - 1)[i - 1];
      d
  }

  /** The longest prefix of s made of blanks. */
  function TakeBlanks(s: string): (b: string)
    ensures b <= s && AllBlanks(b)
  {
    if s == [] || !IsBlank(s[0]) then []
    else
      var b := [s[0]] + TakeBlanks(s[1..]);
      assert forall i | 1 <= i < |b| :: b[i] == TakeBlanks(s[1..])[i - 1];
      b
  }

  /** Digits split off the front of a text, and the text after them. */
  datatype Piece = Piece(digits: string, rest: string)

  /** The longest run of at most hi digits at the front of s, if it has at least lo. */
  function Number(s: string, lo: nat, hi: nat): (r: Option<Piece>)
    ensures r.Some? ==> Digits(r.value.digits, lo, hi) && s == r.value.digits + r.value.rest
  {
    var d := TakeDigits(s, hi);
    if |d| < lo then None else Some(Piece(d, Rest(s, d)))
  }

  /** The character c, then a Number. */
  function SepNumber(c: char, s: string, lo: nat, hi: nat): (r: Option<Piece>)
    ensures r.Some? ==> Digits(r.value.digits, lo, hi) && s == [c] + (r.value.digits + r.value.rest)
  {
    if s == [] || s[0] != c then None
    else
      assert s == [c] + s[1..];
      Number(s[1..], lo, hi)
  }

  /** The zone, which must reach the end of the text. */
  function ParseZone(s: string): (r: Option<Zone>)
    ensures r.Some? ==> ZoneWellFormed(r.value) && RenderZone(r.value) == s
  {
    var b := TakeBlanks(s);
    var t := Rest(s, b);
    if t == [] then (if b == [] then Some(NoZone) else None)
    else if t == "Z" then Some(Utc(b))
    else if t[0] == '-' || t[0] == '+' then ParseOffset(b, t)
    else None
  }

  /** A signed hour offset and what follows it. */
  function ParseOffset(b: string, t: string): (r: Option<Zone>)
    requires AllBlanks(b) && t != [] && (t[0] == '-' || t[0] == '+')
    ensures r.Some? ==> ZoneWellFormed(r.value) && RenderZone(r.value) == b + t
  {
    assert t == [t[0]] + t[1..];
    match Number(t[1..], 1, 2)
    case None => None
    case Some(Piece(h, u)) =>
      if u == [] then Some(Offset(b, t[0], h, false, []))
      else if u == [':'] then Some(Offset(b, t[0], h, true, []))
      else
        match SepNumber(':', u, 2, 2)
        case None => None
        case Some(Piece(m, rest)) =>
          if rest == [] then
            assert m + rest == m;
            Some(Offset(b, t[0], h, true, m))
          else None
  }

  /** The fraction, if the text starts with '.', then the zone. */
  function ParseTail(s: string): (r: Option<(Option<string>, Zone)>)
    ensures r.Some? ==> var (f, z) := r.value;
      && (f.Some? ==> AllDigits(f.value)) && ZoneWellFormed(z)
      && RenderTail(f, z) == s
  {
    if s != [] && s[0] == '.' then
      match SepNumber('.', s, 0, |s|)
      case None => None
      case Some(Piece(f, rest)) =>
        match ParseZone(rest)
        case None => None
        case Some(z) => Some((Some(f), z))
    else
      match ParseZone(s)
      case None => None
      case Some(z) => Some((None, z))
  }

  /** H[H]:MM:SS, then the fraction and the zone. */
  function ParseTime(sep: string, t: string): (r: Option<Clock>)
    requires ValidSep(sep)
    ensures r.Some? ==> ClockWellFormed(r.value) && r.value.sep == sep && RenderTime(r.value) == t
  {
    match Number(t, 1, 2)
    case None => None
    case Some(Piece(h, t1)) =>
      match SepNumber(':', t1, 2, 2)
      case None => None
      case Some(Piece(mi, t2)) =>
        match SepNumber(':', t2, 2, 2)
        case None => None
        case Some(Piece(se, t3)) =>
          match ParseTail(t3)
          case None => None
          case Some((f, z)) => Some(Clock(sep, h, mi, se, f, z))
  }

  /** The separator, then the clock. */
  function ParseClock(s: string): (r: Option<Clock>)
    ensures r.Some? ==> ClockWellFormed(r.value) && RenderClock(r.value) == s
  {
    if s == [] then None
    else
      var sep := if s[0] == 'T' || s[0] == 't' then s[..1] else TakeBlanks(s);
      if sep == [] then None else ParseTime(sep, Rest(s, sep))
  }

  /** YYYY-M[M]-D[D], and the text after it. */
  datatype DateParts = DateParts(year: string, month: string, day: string, rest: string)

  function ParseDate(s: string): (r: Option<DateParts>)
    ensures r.Some? ==> var p := r.value;
      && Digits(p.year, 4, 4) && Digits(p.month, 1, 2) && Digits(p.day, 1, 2)
      && s == p.year + (['-'] + (p.month + (['-'] + (p.day + p.rest))))
  {
    match Number(s, 4, 4)
    case None => None
    case Some(Piece(y, t)) =>
      match SepNumber('-', t, 1, 2)
      case None => None
      case Some(Piece(m, u)) =>
        match SepNumber('-', u, 1, 2)
        case None => None
        case Some(Piece(d, rest)) => Some(DateParts(y, m, d, rest))
  }

  /** The ymd pattern: a date and nothing after it. */
  function RecogniseDate(s: string): (r: Option<Captures>)
    ensures r.Some? ==> WellFormed(r.value) && r.value.clock.None? && Render(r.value) == s
  {
    match ParseDate(s)
    case None => None
    case Some(p) => if p.rest == [] then Some(Captures(p.year, p.month, p.day, None)) else None
  }

  /** The timestamp pattern: a date, then optionally a clock. */
  function Recognise(s: string): (r: Option<Captures>)
    ensures r.Some? ==> WellFormed(r.value) && Render(r.value) == s
  {
    match ParseDate(s)
    case None => None
    case Some(p) =>
      if p.rest == [] then Some(Captures(p.year, p.month, p.day, None))
      else
        match ParseClock(p.rest)
        case None => None
        case Some(k) => Some(Captures(p.year, p.month, p.day, Some(k)))
  }

  // ---------------------------------------------------------------------------
  // Completeness: every well-formed rendering is recognised, as itself
  // ---------------------------------------------------------------------------

  lemma RestOf(d: string, r: string)
    ensures d <= d + r && Rest(d + r, d) == r
  {
  }

  lemma {:induction false} TakeDigitsOf(d: string, rest: string, hi: nat)
    requires AllDigits(d) && |d| <= hi
    requires |d| == hi || rest == [] || !IsDigit(rest[0])
    ensures TakeDigits(d + rest, hi) == d
    decreases |d|
  {
    if d == [] {
      assert d + rest == rest;
    } else {
      assert (d + rest)[0] == d[0] && (d + rest)[1..] == d[1..] + rest;
      TakeDigitsOf(d[1..], rest, hi - 1);
      assert d == [d[0]] + d[1..];
    }
  }

  lemma {:induction false} TakeBlanksOf(b: string, rest: string)
    requires AllBlanks(b)
    requires rest == [] || !IsBlank(rest[0])
    ensures TakeBlanks(b + rest) == b
    decreases |b|
  {
    if b == [] {
      assert b + rest == rest;
    } else {
      assert (b + rest)[0] == b[0] && (b + rest)[1..] == b[1..] + rest;
      TakeBlanksOf(b[1..], rest);
      assert b == [b[0]] + b[1..];
    }
  }

  /** Digits followed by something other than a digit (or by nothing, or already hi of
      them) are split off whole. */
  lemma NumberOf(d: string, rest: string, lo: nat, hi: nat)
    requires Digits(d, lo, hi)
    requires |d| == hi || rest == [] || !IsDigit(rest[0])
    ensures Number(d + rest, lo, hi) == Some(Piece(d, rest))
  {
    TakeDigitsOf(d, rest, hi);
    RestOf(d, rest);
  }

  lemma SepNumberOf(c: char, d: string, rest: string, lo: nat, hi: nat)
    requires Digits(d, lo, hi)
    requires |d| == hi || rest == [] || !IsDigit(rest[0])
    ensures SepNumber(c, [c] + (d + rest), lo, hi) == Some(Piece(d, rest))
  {
    assert ([c] + (d + rest))[1..] == d + rest;
    NumberOf(d, rest, lo, hi);
  }

  /** A rendered zone is empty or starts with a blank, 'Z' or a sign. */
  lemma ZoneStart(z: Zone)
    requires ZoneWellFormed(z)
    ensures var s := RenderZone(z); s != [] ==> IsBlank(s[0]) || s[0] == 'Z' || s[0] == '-' || s[0] == '+'
  {
    match z
    case NoZone =>
    case Utc(b) =>
      if b != [] { assert RenderZone(z)[0] == b[0]; }
    case Offset(b, sign, h, colon, m) =>
      if b != [] { assert RenderZone(z)[0] == b[0]; } else { assert RenderZone(z)[0] == sign; }
  }

  lemma ParseZoneComplete(z: Zone)
    requires ZoneWellFormed(z)
    ensures ParseZone(RenderZone(z)) == Some(z)
  {
    match z
    case NoZone =>
    case Utc(b) =>
      TakeBlanksOf(b, "Z");
      RestOf(b, "Z");
    case Offset(b, sign, h, colon, m) =>
      var t := [sign] + (h + (if colon then [':'] + m else []));
      TakeBlanksOf(b, t);
      RestOf(b, t);
      ParseOffsetComplete(b, sign, h, colon, m);
  }

  lemma ParseOffsetComplete(b: string, sign: char, h: string, colon: bool, m: string)
    requires ZoneWellFormed(Offset(b, sign, h, colon, m))
    ensures var t := [sign] + (h + (if colon then [':'] + m else []));
      ParseOffset(b, t) == Some(Offset(b, sign, h, colon, m))
  {
    var u: string := if colon then [':'] + m else [];
    var t := [sign] + (h + u);
    assert t[1..] == h + u;
    NumberOf(h, u, 1, 2);
    if colon && m != [] {
      assert m + [] == m;
      SepNumberOf(':', m, [], 2, 2);
    }
  }

  lemma ParseTailComplete(f: Option<string>, z: Zone)
    requires (f.Some? ==> AllDigits(f.value)) && ZoneWellFormed(z)
    ensures ParseTail(RenderTail(f, z)) == Some((f, z))
  {
    var zs := RenderZone(z);
    ZoneStart(z);
    ParseZoneComplete(z);
    if f.Some? {
      var s := ['.'] + (f.value + zs);
      SepNumberOf('.', f.value, zs, 0, |s|);
    }
  }

  lemma ParseTimeComplete(k: Clock)
    requires ClockWellFormed(k)
    ensures ParseTime(k.sep, RenderTime(k)) == Some(k)
  {
    var t3 := RenderTail(k.fraction, k.zone);
    var t2 := [':'] + (k.second + t3);
    var t1 := [':'] + (k.minute + t2);
    NumberOf(k.hour, t1, 1, 2);
    SepNumberOf(':', k.minute, t2, 2, 2);
    SepNumberOf(':', k.second, t3, 2, 2);
    ParseTailComplete(k.fraction, k.zone);
  }

  lemma ParseClockComplete(k: Clock)
    requires ClockWellFormed(k)
    ensures ParseClock(RenderClock(k)) == Some(k)
  {
    var rest := RenderTime(k);
    var s := k.sep + rest;
    assert rest[0] == k.hour[0];
    if k.sep != "T" && k.sep != "t" {
      TakeBlanksOf(k.sep, rest);
      assert s[0] == k.sep[0];
    } else {
      assert s[..1] == k.sep;
    }
    RestOf(k.sep, rest);
    ParseTimeComplete(k);
  }

  lemma ParseDateComplete(c: Captures)
    requires WellFormed(c)
    ensures ParseDate(Render(c)) == Some(DateParts(c.year, c.month, c.day, RenderClockIfAny(c.clock)))
  {
    var rest := RenderClockIfAny(c.clock);
    var u := ['-'] + (c.day + rest);
    var t := ['-'] + (c.month + u);
    if c.clock.Some? {
      var k := c.clock.value;
      assert rest[0] == k.sep[0];
    }
    NumberOf(c.year, t, 4, 4);
    SepNumberOf('-', c.month, u, 1, 2);
    SepNumberOf('-', c.day, rest, 1, 2);
  }

  /** The recogniser accepts a text exactly when it is the rendering of well-formed
      captures, and then returns those captures: the pattern's groups are determined by
      the text. */
  lemma RecogniseExactly(s: string, c: Captures)
    ensures Recognise(s) == Some(c) <==> WellFormed(c) && Render(c) == s
  {
    if WellFormed(c) && Render(c) == s {
      ParseDateComplete(c);
      if c.clock.Some? {
        var k := c.clock.value;
        assert RenderClock(k) != [] by { assert RenderClock(k)[0] == k.sep[0]; }
        ParseClockComplete(k);
      }
    }
  }

  /** The ymd pattern matches exactly the clock-less timestamps, with the same groups. */
  lemma DatePatternIsClockless(s: string)
    ensures RecogniseDate(s).Some? <==> Recognise(s).Some? && Recognise(s).value.clock.None?
    ensures RecogniseDate(s).Some? ==> RecogniseDate(s) == Recognise(s)
  {
    if Recognise(s).Some? && Recognise(s).value.clock.None? {
      ParseDateComplete(Recognise(s).value);
    }
  }

  // ---------------------------------------------------------------------------
  // Fields
  // ---------------------------------------------------------------------------

  /** The arguments resolve_time passes to time.Date: the date, the clock (midnight when
      there is none), the nanoseconds, and the zone as an offset in seconds east of UTC,
      None standing for time.UTC. */
  datatype Timestamp = Timestamp(year: int, month: int, day: int, hour: int, minute: int,
                                 second: int, nanos: int, offset: Option<int>)

  /** The fraction's digits read by strconv.Atoi as a count of milliseconds, converted to
      nanoseconds in int64 arithmetic (time.Duration), which wraps. */
  function Nanos(f: Option<string>): (n: int)
    requires f.Some? ==> AllDigits(f.value)
    ensures FitsSigned(n, 64)
    ensures f.None? || f.value == [] ==> n == 0
  {
    if f.None? || f.value == [] then 0 else WrapSigned(Atoi(f.value) * 1_000_000, 64)
  }

  /** The offset of time.FixedZone("", ±(hours·60 + minutes)·60), minutes 0 when absent;
      None for Z or no zone (time.UTC). */
  function ZoneOffset(z: Zone): (off: Option<int>)
    requires ZoneWellFormed(z)
    ensures off.Some? <==> z.Offset?
  {
    match z
    case NoZone => None
    case Utc(_) => None
    case Offset(_, sign, h, _, m) =>
      var minutes := if m == [] then 0 else Atoi(m);
      var seconds := (Atoi(h) * 60 + minutes) * 60;
      Some(if sign == '-' then -seconds else seconds)
  }

  function FieldsOf(c: Captures): Timestamp
    requires WellFormed(c)
  {
    match c.clock
    case None => Timestamp(Atoi(c.year), Atoi(c.month), Atoi(c.day), 0, 0, 0, 0, None)
    case Some(k) =>
      Timestamp(Atoi(c.year), Atoi(c.month), Atoi(c.day), Atoi(k.hour), Atoi(k.minute),
                Atoi(k.second), Nanos(k.fraction), ZoneOffset(k.zone))
  }

  /** resolve_time: the ymd pattern first, giving midnight UTC; then the timestamp
      pattern; otherwise "Unexpected timestamp: " and the text as given. Whichever
      pattern matches, the fields are those of the text's captures. */
  function ResolveTime(val: string): (r: Outcome<Timestamp>)
    ensures !r.Panic?
    ensures r.Err? <==> Recognise(val).None?
    ensures r.Err? ==> r.error == InvalidTimestamp(val)
    ensures r.Ok? ==> r.value == FieldsOf(Recognise(val).value)
  {
    DatePatternIsClockless(val);
    match RecogniseDate(val)
    case Some(c) => Ok(Timestamp(Atoi(c.year), Atoi(c.month), Atoi(c.day), 0, 0, 0, 0, None))
    case None =>
      match Recognise(val)
      case None => Err(InvalidTimestamp(val))
      case Some(c) => Ok(FieldsOf(c))
  }

  // ---------------------------------------------------------------------------
  // Properties
  // ---------------------------------------------------------------------------

  /** A text resolves as a timestamp exactly when it renders well-formed captures, and
      then its fields are theirs. */
  lemma ResolveTimeOf(c: Captures)
    requires WellFormed(c)
    ensures ResolveTime(Render(c)) == Ok(FieldsOf(c))
  {
    RecogniseExactly(Render(c), c);
  }

  lemma ResolveTimeFails(val: string)
    requires forall c :: WellFormed(c) ==> Render(c) != val
    ensures ResolveTime(val) == Err(InvalidTimestamp(val))
  {
    match Recognise(val)
    case None =>
    case Some(c) => RecogniseExactly(val, c);
  }

  /** A text with a clock resolves to its fraction's nanoseconds and its zone's offset. */
  lemma ResolveTimeClock(c: Captures)
    requires WellFormed(c) && c.clock.Some?
    ensures ResolveTime(Render(c)).Ok?
    ensures var t := ResolveTime(Render(c)).value;
      t.nanos == Nanos(c.clock.value.fraction) && t.offset == ZoneOffset(c.clock.value.zone)
  {
    ResolveTimeOf(c);
  }

  /** A date alone is midnight UTC. */
  lemma DateIsMidnightUtc(c: Captures)
    requires WellFormed(c) && c.clock.None?
    ensures ResolveTime(Render(c)).Ok?
    ensures var t := ResolveTime(Render(c)).value;
      && t.hour == 0 && t.minute == 0 && t.second == 0 && t.nanos == 0 && t.offset == None
  {
    ResolveTimeOf(c);
  }

  /** Z, or no zone at all, is UTC; a signed zone is a fixed offset, never UTC itself, and
      within ±(99·60 + 99)·60 seconds, negative only after '-'. */
  lemma ZoneOffsetRange(z: Zone)
    requires ZoneWellFormed(z)
    ensures ZoneOffset(z).None? <==> z.NoZone? || z.Utc?
    ensures z.Offset? ==> -362340 <= ZoneOffset(z).value <= 362340
    ensures z.Offset? && ZoneOffset(z).value < 0 ==> z.sign == '-'
  {
    if z.Offset? {
      TwoDigitsAtMost(z.hours);
      if z.minutes != [] { TwoDigitsAtMost(z.minutes); }
    }
  }

  /** At most two digits make at most 99. */
  lemma TwoDigitsAtMost(d: string)
    requires Digits(d, 1, 2)
    ensures Atoi(d) <= 99
  {
    assert IsDigit(d[0]) && IsDigit(d[|d| - 1]);
    if |d| == 2 {
      DigitsValueOfTwo(d, 10);
    } else {
      assert d[..|d| - 1] == [];
      assert DigitsValue(d, 10) == DigitsValue([], 10) * 10 + DigitValue(d[0]);
    }
  }

  /** The fraction counts milliseconds: up to twelve digits give their value times a
      million nanoseconds, with no wrap-around; ".5" is 5 ms, not half a second. */
  lemma FractionIsMilliseconds(f: string)
    requires AllDigits(f) && f != [] && |f| <= 12
    ensures Nanos(Some(f)) == DigitsValue(f, 10) * 1_000_000
  {
    DigitsBelowPower(f);
    assert Pow(10, 12) == 1_000_000_000_000;
    PowMonotone(|f|, 12);
  }

  /** ".10" is ten milliseconds (with ResolveTimeClock, the nanoseconds of a timestamp
      whose fraction is ".10"). */
  lemma ExampleFraction()
    ensures Nanos(Some("10")) == 10_000_000
  {
    DigitsValueOfTwo("10", 10);
  }

  /** "-05:00" is five hours west of UTC. */
  lemma ExampleZone()
    ensures ZoneOffset(Offset("", '-', "05", true, "00")) == Some(-18000)
  {
    DigitsValueOfTwo("05", 10);
    DigitsValueOfTwo("00", 10);
  }
}
