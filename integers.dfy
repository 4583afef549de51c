/** resolve_int and resolve_uint: integer scalars in base 2, 8, 10, 16 or 60 resolved into
    a signed or unsigned target of a given bit width.

    Each converter is given twice: a function that says what the result is (the
    sexagesimal value as the sum of its groups times powers of 60, wrapped once), and a
    method that computes it the way the Go code does, rebinding the text step by step and
    accumulating the groups right to left in wrapping 64-bit arithmetic. The method is
    proved to agree with the function; the lemmas below are about the function. */
module Integers {
  import opened Outcomes
  import opened Text
  import opened Numerals
  import opened TwosComplement

  // ---------------------------------------------------------------------------
  // Sexagesimal numbers
  // ---------------------------------------------------------------------------

  /** g·60^k, computed by k multiplications by 60. */
  function Scaled(g: int, k: nat): int
    decreases k
  {
    if k == 0 then g else Scaled(g, k - 1) * 60
  }

  lemma {:induction false} ScaledIsProduct(g: int, k: nat)
    ensures Scaled(g, k) == g * Pow(60, k)
    decreases k
  {
    if k > 0 {
      ScaledIsProduct(g, k - 1);
      assert g * Pow(60, k - 1) * 60 == g * (Pow(60, k - 1) * 60);
    }
  }

  /** The value strconv.ParseInt gives a group; 0 when it gives an error, in which case
      the number fails as a whole and the value is never used. */
  function SignedTerm(g: string): int {
    match ParseInt64(g, 10)
    case Some(v) => v
    case None => 0
  }

  function UnsignedTerm(g: string): int {
    match ParseUint64(g, 10)
    case Some(v) => v
    case None => 0
  }

  /** Σ term(gs[k])·60^(|gs|-1-k) over k >= j: the groups from j on read as base-60
      digits, the most significant first. Groups are not limited to 0..59. */
  function SignedGroupsSum(gs: seq<string>, j: nat): int
    requires j <= |gs|
    decreases |gs| - j
  {
    if j == |gs| then 0 else Scaled(SignedTerm(gs[j]), |gs| - 1 - j) + SignedGroupsSum(gs, j + 1)
  }

  function UnsignedGroupsSum(gs: seq<string>, j: nat): int
    requires j <= |gs|
    decreases |gs| - j
  {
    if j == |gs| then 0 else Scaled(UnsignedTerm(gs[j]), |gs| - 1 - j) + UnsignedGroupsSum(gs, j + 1)
  }

  /** Group j parses as an int64 and its term, the group times 60 to the power of its
      place computed in wrapping int64 arithmetic, is within the target width. */
  predicate SignedGroupFits(gs: seq<string>, j: nat, w: Width)
    requires j < |gs|
  {
    && ParseInt64(gs[j], 10).Some?
    && FitsSigned(WrapSigned(Scaled(ParseInt64(gs[j], 10).value, |gs| - 1 - j), 64), w)
  }

  predicate UnsignedGroupFits(gs: seq<string>, j: nat, w: Width)
    requires j < |gs|
  {
    && ParseUint64(gs[j], 10).Some?
    && FitsUnsigned(WrapUnsigned(Scaled(ParseUint64(gs[j], 10).value, |gs| - 1 - j), 64), w)
  }

  /** One turn of the int64 loop: with value and bes the wrapped partial sum S and power
      P, the wrapped term, sum and next power are those of the exact arithmetic. */
  lemma SignedStep(value: int, bes: int, g: int, p: int, s: int)
    requires value == WrapSigned(s, 64) && bes == WrapSigned(p, 64)
    ensures WrapSigned(g * bes, 64) == WrapSigned(g * p, 64)
    ensures WrapSigned(value + WrapSigned(g * bes, 64), 64) == WrapSigned(g * p + s, 64)
    ensures WrapSigned(bes * 60, 64) == WrapSigned(p * 60, 64)
  {
    SignedScale(bes, p, g);
    SignedScale(bes, p, 60);
    SignedSum(value, s, g * p);
  }

  lemma SignedScale(b: int, p: int, g: int)
    requires b == WrapSigned(p, 64)
    ensures WrapSigned(g * b, 64) == WrapSigned(g * p, 64)
    ensures WrapSigned(b * g, 64) == WrapSigned(p * g, 64)
  {
    WrapSignedMul(p, g, 64);
    assert g * b == b * g && g * p == p * g;
  }

  lemma SignedSum(value: int, s: int, t: int)
    requires value == WrapSigned(s, 64)
    ensures WrapSigned(value + WrapSigned(t, 64), 64) == WrapSigned(t + s, 64)
  {
    WrapSignedAdd(s, WrapSigned(t, 64), 64);
    WrapSignedAdd(t, s, 64);
    assert s + WrapSigned(t, 64) == WrapSigned(t, 64) + s;
  }

  /** Every group from j on fits: the loop's invariant, one group at a time. */
  predicate SignedGroupsFitFrom(gs: seq<string>, j: nat, w: Width)
    decreases |gs| - j
  {
    j >= |gs| || (SignedGroupFits(gs, j, w) && SignedGroupsFitFrom(gs, j + 1, w))
  }

  predicate UnsignedGroupsFitFrom(gs: seq<string>, j: nat, w: Width)
    decreases |gs| - j
  {
    j >= |gs| || (UnsignedGroupFits(gs, j, w) && UnsignedGroupsFitFrom(gs, j + 1, w))
  }

  /** The recursive invariant says the same as the quantified condition. */
  lemma {:induction false} SignedGroupsFitFromAll(gs: seq<string>, j: nat, w: Width)
    ensures SignedGroupsFitFrom(gs, j, w) <==> forall k | j <= k < |gs| :: SignedGroupFits(gs, k, w)
    decreases |gs| - j
  {
    if j < |gs| {
      SignedGroupsFitFromAll(gs, j + 1, w);
    }
  }

  lemma {:induction false} UnsignedGroupsFitFromAll(gs: seq<string>, j: nat, w: Width)
    ensures UnsignedGroupsFitFrom(gs, j, w) <==> forall k | j <= k < |gs| :: UnsignedGroupFits(gs, k, w)
    decreases |gs| - j
  {
    if j < |gs| {
      UnsignedGroupsFitFromAll(gs, j + 1, w);
    }
  }

  /** A group that does not fit makes the whole number fail. */
  lemma SignedGroupsFitFromFails(gs: seq<string>, j: nat, w: Width)
    requires j < |gs| && !SignedGroupFits(gs, j, w)
    ensures !SignedGroupsFitFrom(gs, 0, w)
  {
    SignedGroupsFitFromAll(gs, 0, w);
  }

  lemma UnsignedGroupsFitFromFails(gs: seq<string>, j: nat, w: Width)
    requires j < |gs| && !UnsignedGroupFits(gs, j, w)
    ensures !UnsignedGroupsFitFrom(gs, 0, w)
  {
    UnsignedGroupsFitFromAll(gs, 0, w);
  }

  /** One turn of the loop at group j, parsed as g, with bes the wrapped power of 60 of
      the group's place and value the wrapped sum of the groups after it: the wrapped term
      decides whether the group fits, and the new sum and power are those of place j. */
  lemma SignedLoopStep(gs: seq<string>, j: nat, w: Width, value: int, bes: int, g: int, n: int)
    requires j < |gs| && ParseInt64(gs[j], 10) == Some(g)
    requires bes == WrapSigned(Pow(60, |gs| - 1 - j), 64)
    requires value == WrapSigned(SignedGroupsSum(gs, j + 1), 64)
    requires n == WrapSigned(g * bes, 64)
    ensures SignedGroupFits(gs, j, w) <==> FitsSigned(n, w)
    ensures SignedGroupsFitFrom(gs, j + 1, w) ==> (SignedGroupsFitFrom(gs, (j - 1) + 1, w) <==> FitsSigned(n, w))
    ensures WrapSigned(value + n, 64) == WrapSigned(SignedGroupsSum(gs, (j - 1) + 1), 64)
    ensures WrapSigned(bes * 60, 64) == WrapSigned(Pow(60, |gs| - 1 - (j - 1)), 64)
  {
    var p := Pow(60, |gs| - 1 - j);
    var s := SignedGroupsSum(gs, j + 1);
    SignedStep(value, bes, g, p, s);
    SignedSumStep(gs, j, g);
    ScaledIsProduct(g, |gs| - 1 - j);
    PowStep(|gs| - 1 - j);
  }

  lemma UnsignedLoopStep(gs: seq<string>, j: nat, w: Width, value: int, bes: int, g: int, n: int)
    requires j < |gs| && ParseUint64(gs[j], 10) == Some(g)
    requires bes == WrapUnsigned(Pow(60, |gs| - 1 - j), 64)
    requires value == WrapUnsigned(UnsignedGroupsSum(gs, j + 1), 64)
    requires n == WrapUnsigned(g * bes, 64)
    ensures UnsignedGroupFits(gs, j, w) <==> FitsUnsigned(n, w)
    ensures UnsignedGroupsFitFrom(gs, j + 1, w) ==> (UnsignedGroupsFitFrom(gs, (j - 1) + 1, w) <==> FitsUnsigned(n, w))
    ensures WrapUnsigned(value + n, 64) == WrapUnsigned(UnsignedGroupsSum(gs, (j - 1) + 1), 64)
    ensures WrapUnsigned(bes * 60, 64) == WrapUnsigned(Pow(60, |gs| - 1 - (j - 1)), 64)
  {
    var p := Pow(60, |gs| - 1 - j);
    var s := UnsignedGroupsSum(gs, j + 1);
    UnsignedStep(value, bes, g, p, s);
    UnsignedSumStep(gs, j, g);
    ScaledIsProduct(g, |gs| - 1 - j);
    PowStep(|gs| - 1 - j);
  }

  lemma SignedSumStep(gs: seq<string>, j: nat, g: int)
    requires j < |gs| && ParseInt64(gs[j], 10) == Some(g)
    ensures SignedGroupsSum(gs, j)
         == Scaled(g, |gs| - 1 - j) + SignedGroupsSum(gs, j + 1)
  {
    assert SignedTerm(gs[j]) == g;
  }

  lemma UnsignedSumStep(gs: seq<string>, j: nat, g: int)
    requires j < |gs| && ParseUint64(gs[j], 10) == Some(g)
    ensures UnsignedGroupsSum(gs, j)
         == Scaled(g, |gs| - 1 - j) + UnsignedGroupsSum(gs, j + 1)
  {
    assert UnsignedTerm(gs[j]) == g;
  }

  lemma PowStep(e: nat)
    ensures Pow(60, e + 1) == Pow(60, e) * 60
  {
  }

  lemma UnsignedStep(value: int, bes: int, g: int, p: int, s: int)
    requires value == WrapUnsigned(s, 64) && bes == WrapUnsigned(p, 64)
    ensures WrapUnsigned(g * bes, 64) == WrapUnsigned(g * p, 64)
    ensures WrapUnsigned(value + WrapUnsigned(g * bes, 64), 64) == WrapUnsigned(g * p + s, 64)
    ensures WrapUnsigned(bes * 60, 64) == WrapUnsigned(p * 60, 64)
  {
    UnsignedScale(bes, p, g);
    UnsignedScale(bes, p, 60);
    UnsignedSum(value, s, g * p);
  }

  lemma UnsignedScale(b: int, p: int, g: int)
    requires b == WrapUnsigned(p, 64)
    ensures WrapUnsigned(g * b, 64) == WrapUnsigned(g * p, 64)
    ensures WrapUnsigned(b * g, 64) == WrapUnsigned(p * g, 64)
  {
    WrapUnsignedMul(p, g, 64);
    assert g * b == b * g && g * p == p * g;
  }

  lemma UnsignedSum(value: int, s: int, t: int)
    requires value == WrapUnsigned(s, 64)
    ensures WrapUnsigned(value + WrapUnsigned(t, 64), 64) == WrapUnsigned(t + s, 64)
  {
    WrapUnsignedAdd(s, WrapUnsigned(t, 64), 64);
    WrapUnsignedAdd(t, s, 64);
    assert s + WrapUnsigned(t, 64) == WrapUnsigned(t, 64) + s;
  }

  // ---------------------------------------------------------------------------
  // Signed targets (resolve_int)
  // ---------------------------------------------------------------------------

  /** The signed integer a scalar denotes for a target of w bits: underscores are
      removed, then a sign, and what is left is read by SignedBody. */
  function SignedValue(text: string, w: Width): (r: Outcome<int>)
    ensures r.Ok? ==> FitsSigned(r.value, w)
    ensures r.Err? ==> r.error.InvalidInteger?
    ensures r.Panic? <==> StripUnderscores(text) in {"", "-", "+"}
  {
    var s := StripUnderscores(text);
    if s == [] then Panic
    else
      var body := if s[0] == '-' || s[0] == '+' then s[1..] else s;
      assert body == [] ==> s == [s[0]];
      assert body == [] <==> s in {"-", "+"};
      SignedBody(body, s[0] == '-', w)
  }

  /** The numeral after the sign: "0" is zero, "0b" selects base 2, "0x" base 16, any
      other leading '0' base 8, a colon base 60, and everything else base 10. Nothing
      left at all is an index out of range in the Go code, a panic. */
  function SignedBody(body: string, negative: bool, w: Width): (r: Outcome<int>)
    ensures r.Ok? ==> FitsSigned(r.value, w)
    ensures r.Err? ==> r.error.InvalidInteger?
    ensures r.Panic? <==> body == []
  {
    if body == "0" then Ok(0)
    else if "0b" <= body then SignedRadix(body[2..], 2, negative, w)
    else if "0x" <= body then SignedRadix(body[2..], 16, negative, w)
    else if body == [] then Panic
    else if body[0] == '0' then SignedRadix(body[1..], 8, negative, w)
    else if ':' in body then SignedSexagesimal(body, negative, w)
    else SignedRadix(body, 10, negative, w)
  }

  /** Underscores are ignored wherever they stand. */
  lemma SignedValueIgnoresUnderscores(text: string, w: Width)
    ensures SignedValue(text, w) == SignedValue(StripUnderscores(text), w)
  {
    StripUnderscoresIdempotent(text);
  }

  /** The digits parsed by strconv.ParseInt in the base (which itself accepts one more
      sign), negated in int64 arithmetic when the text carried a '-', then range-checked. */
  function SignedRadix(digits: string, base: nat, negative: bool, w: Width): (r: Outcome<int>)
    ensures r.Ok? ==> FitsSigned(r.value, w)
    ensures r.Err? ==> r == Err(InvalidInteger(digits))
    ensures !r.Panic?
  {
    match ParseInt64(digits, base)
    case None => Err(InvalidInteger(digits))
    case Some(v) =>
      var x := WrapSigned(if negative then -v else v, 64);
      if FitsSigned(x, w) then Ok(x) else Err(InvalidInteger(digits))
  }

  /** Every group must parse and every scaled group fit the width; the sum itself is not
      checked, and storing it into the target keeps only its low w bits. */
  function SignedSexagesimal(body: string, negative: bool, w: Width): (r: Outcome<int>)
    ensures r.Ok? ==> FitsSigned(r.value, w)
    ensures r.Err? ==> r == Err(InvalidInteger(body))
    ensures !r.Panic?
  {
    var gs := Split(body, ':');
    if SignedGroupsFitFrom(gs, 0, w) then
      var total := SignedGroupsSum(gs, 0);
      Ok(WrapSigned(if negative then -total else total, w))
    else
      Err(InvalidInteger(body))
  }

  /** resolve_int: the Go code step by step. */
  method ResolveInt(text: string, w: Width) returns (r: Outcome<int>)
    ensures r == SignedValue(text, w)
  {
    var val := StripUnderscores(text);
    if val == [] {
      return Panic;
    }
    var sign := 1;
    if val[0] == '-' {
      sign := -1;
      val := val[1..];
    } else if val[0] == '+' {
      val := val[1..];
    }
    assert SignedValue(text, w) == SignedBody(val, sign == -1, w);
    var base: nat := 10;
    if val == "0" {
      return Ok(0);
    }
    if "0b" <= val {
      base := 2;
      val := val[2..];
    } else if "0x" <= val {
      base := 16;
      val := val[2..];
    } else if val == [] {
      return Panic;
    } else if val[0] == '0' {
      base := 8;
      val := val[1..];
    } else if ':' in val {
      r := SexagesimalInt(val, sign, w);
      return;
    }
    assert SignedValue(text, w) == SignedRadix(val, base, sign == -1, w);
    SignedRadixRejects(val, base, sign == -1, w);
    var parsed := ParseInt64(val, base);
    // value *= sign, for a sign that is 1 or -1
    var value := if parsed.Some? then WrapSigned(if sign == -1 then -parsed.value else parsed.value, 64) else 0;
    if parsed.None? || !FitsSigned(value, w) {
      return Err(InvalidInteger(val));
    }
    return Ok(value);
  }

  /** The sexagesimal loop of resolve_int: groups right to left, each scaled by bes, the
      running power of 60; value, n and bes are int64 and wrap on overflow. */
  method SexagesimalInt(val: string, sign: int, w: Width) returns (r: Outcome<int>)
    requires sign == 1 || sign == -1
    ensures r == SignedSexagesimal(val, sign == -1, w)
  {
    var digits := Split(val, ':');
    var sum := SumGroupsInt(digits, w);
    if sum.None? {
      return Err(InvalidInteger(val));
    }
    var value := sum.value;
    SignedSexagesimalSucceeds(val, sign, w, value);
    value := WrapSigned(value * sign, 64);
    return Ok(WrapSigned(value, w));
  }

  /** The loop itself: None as soon as a group fails to parse or its term overflows the
      target, else the int64 sum of the terms. */
  method SumGroupsInt(digits: seq<string>, w: Width) returns (r: Option<int>)
    ensures r.None? <==> !SignedGroupsFitFrom(digits, 0, w)
    ensures r.Some? ==> r.value == WrapSigned(SignedGroupsSum(digits, 0), 64)
  {
    var value, bes := 0, 1;
    var j := |digits| - 1;
    while j >= 0
      invariant -1 <= j < |digits|
      invariant SignedGroupsFitFrom(digits, j + 1, w)
      invariant bes == WrapSigned(Pow(60, |digits| - 1 - j), 64)
      invariant value == WrapSigned(SignedGroupsSum(digits, j + 1), 64)
    {
      var parsed := ParseInt64(digits[j], 10);
      if parsed.None? {
        SignedGroupsFitFromFails(digits, j, w);
        return None;
      }
      var n := WrapSigned(parsed.value * bes, 64);
      SignedLoopStep(digits, j, w, value, bes, parsed.value, n);
      if !FitsSigned(n, w) {
        SignedGroupsFitFromFails(digits, j, w);
        return None;
      }
      value := WrapSigned(value + n, 64);
      bes := WrapSigned(bes * 60, 64);
      j := j - 1;
    }
    return Some(value);
  }

  lemma SignedSexagesimalSucceeds(val: string, sign: int, w: Width, value: int)
    requires sign == 1 || sign == -1
    requires SignedGroupsFitFrom(Split(val, ':'), 0, w)
    requires value == WrapSigned(SignedGroupsSum(Split(val, ':'), 0), 64)
    ensures SignedSexagesimal(val, sign == -1, w) == Ok(WrapSigned(WrapSigned(value * sign, 64), w))
  {
    var total := SignedGroupsSum(Split(val, ':'), 0);
    assert SignedSexagesimal(val, sign == -1, w) == Ok(WrapSigned(if sign == -1 then -total else total, w));
    WrapSignedSign(total, sign, w);
  }

  lemma WrapSignedSign(total: int, sign: int, w: Width)
    requires sign == 1 || sign == -1
    ensures WrapSigned(WrapSigned(WrapSigned(total, 64) * sign, 64), w)
         == WrapSigned(if sign == -1 then -total else total, w)
  {
    WrapSignedMul(total, sign, 64);
    WrapSignedNarrow(total * sign, w);
    assert total * sign == if sign == -1 then -total else total;
  }

  // ---------------------------------------------------------------------------
  // Unsigned targets (resolve_uint)
  // ---------------------------------------------------------------------------

  /** The unsigned integer a scalar denotes for a target of w bits: a '-' is refused
      outright, a '+' is dropped, and the rest is read by UnsignedBody. */
  function UnsignedValue(text: string, w: Width): (r: Outcome<int>)
    ensures r.Ok? ==> FitsUnsigned(r.value, w)
    ensures r.Err? ==> r.error.InvalidUnsigned? || r.error.NegativeUnsigned?
    ensures (r.Err? && r.error.NegativeUnsigned?) <==>
              (StripUnderscores(text) != [] && StripUnderscores(text)[0] == '-')
    ensures r.Panic? <==> StripUnderscores(text) in {"", "+"}
  {
    var s := StripUnderscores(text);
    if s == [] then Panic
    else if s[0] == '-' then Err(NegativeUnsigned(s))
    else
      var body := if s[0] == '+' then s[1..] else s;
      assert body == [] ==> s == [s[0]];
      assert body == [] <==> s == "+";
      UnsignedBody(body, w)
  }

  /** The numeral after an optional '+', read as SignedBody reads it. */
  function UnsignedBody(body: string, w: Width): (r: Outcome<int>)
    ensures r.Ok? ==> FitsUnsigned(r.value, w)
    ensures r.Err? ==> r.error.InvalidUnsigned?
    ensures r.Panic? <==> body == []
  {
    if body == "0" then Ok(0)
    else if "0b" <= body then UnsignedRadix(body[2..], 2, w)
    else if "0x" <= body then UnsignedRadix(body[2..], 16, w)
    else if body == [] then Panic
    else if body[0] == '0' then UnsignedRadix(body[1..], 8, w)
    else if ':' in body then UnsignedSexagesimal(body, w)
    else UnsignedRadix(body, 10, w)
  }

  function UnsignedRadix(digits: string, base: nat, w: Width): (r: Outcome<int>)
    ensures r.Ok? ==> FitsUnsigned(r.value, w)
    ensures r.Err? ==> r == Err(InvalidUnsigned(digits))
    ensures !r.Panic?
  {
    match ParseUint64(digits, base)
    case None => Err(InvalidUnsigned(digits))
    case Some(v) => if FitsUnsigned(v, w) then Ok(v) else Err(InvalidUnsigned(digits))
  }

  function UnsignedSexagesimal(body: string, w: Width): (r: Outcome<int>)
    ensures r.Ok? ==> FitsUnsigned(r.value, w)
    ensures r.Err? ==> r == Err(InvalidUnsigned(body))
    ensures !r.Panic?
  {
    var gs := Split(body, ':');
    if UnsignedGroupsFitFrom(gs, 0, w) then
      Ok(WrapUnsigned(UnsignedGroupsSum(gs, 0), w))
    else
      Err(InvalidUnsigned(body))
  }

  /** resolve_uint: the Go code step by step. */
  method ResolveUint(text: string, w: Width) returns (r: Outcome<int>)
    ensures r == UnsignedValue(text, w)
  {
    var val := StripUnderscores(text);
    if val == [] {
      return Panic;
    }
    if val[0] == '-' {
      return Err(NegativeUnsigned(val));
    }
    if val[0] == '+' {
      val := val[1..];
    }
    assert UnsignedValue(text, w) == UnsignedBody(val, w);
    var base := 10;
    if val == "0" {
      return Ok(0);
    }
    if "0b" <= val {
      base := 2;
      val := val[2..];
    } else if "0x" <= val {
      base := 16;
      val := val[2..];
    } else if val == [] {
      return Panic;
    } else if val[0] == '0' {
      base := 8;
      val := val[1..];
    } else if ':' in val {
      r := SexagesimalUint(val, w);
      return;
    }
    assert UnsignedValue(text, w) == UnsignedRadix(val, base, w);
    var parsed := ParseUint64(val, base);
    if parsed.None? || !FitsUnsigned(parsed.value, w) {
      return Err(InvalidUnsigned(val));
    }
    return Ok(parsed.value);
  }

  /** The sexagesimal loop of resolve_uint, in wrapping uint64 arithmetic. */
  method SexagesimalUint(val: string, w: Width) returns (r: Outcome<int>)
    ensures r == UnsignedSexagesimal(val, w)
  {
    var digits := Split(val, ':');
    var sum := SumGroupsUint(digits, w);
    if sum.None? {
      return Err(InvalidUnsigned(val));
    }
    UnsignedSexagesimalSucceeds(val, w, sum.value);
    return Ok(WrapUnsigned(sum.value, w));
  }

  method SumGroupsUint(digits: seq<string>, w: Width) returns (r: Option<int>)
    ensures r.None? <==> !UnsignedGroupsFitFrom(digits, 0, w)
    ensures r.Some? ==> r.value == WrapUnsigned(UnsignedGroupsSum(digits, 0), 64)
  {
    var value, bes := 0, 1;
    var j := |digits| - 1;
    while j >= 0
      invariant -1 <= j < |digits|
      invariant UnsignedGroupsFitFrom(digits, j + 1, w)
      invariant bes == WrapUnsigned(Pow(60, |digits| - 1 - j), 64)
      invariant value == WrapUnsigned(UnsignedGroupsSum(digits, j + 1), 64)
    {
      var parsed := ParseUint64(digits[j], 10);
      if parsed.None? {
        UnsignedGroupsFitFromFails(digits, j, w);
        return None;
      }
      var n := WrapUnsigned(parsed.value * bes, 64);
      UnsignedLoopStep(digits, j, w, value, bes, parsed.value, n);
      if !FitsUnsigned(n, w) {
        UnsignedGroupsFitFromFails(digits, j, w);
        return None;
      }
      value := WrapUnsigned(value + n, 64);
      bes := WrapUnsigned(bes * 60, 64);
      j := j - 1;
    }
    return Some(value);
  }

  lemma UnsignedSexagesimalSucceeds(val: string, w: Width, value: int)
    requires UnsignedGroupsFitFrom(Split(val, ':'), 0, w)
    requires value == WrapUnsigned(UnsignedGroupsSum(Split(val, ':'), 0), 64)
    ensures UnsignedSexagesimal(val, w) == Ok(WrapUnsigned(value, w))
  {
    WrapUnsignedNarrow(UnsignedGroupsSum(Split(val, ':'), 0), w);
  }

  // ---------------------------------------------------------------------------
  // Properties
  // ---------------------------------------------------------------------------

  /** A numeral written by strconv.FormatInt reads back as its value in any width it fits,
      except the most negative int64 (see SignedLargeMagnitudeRejected). */
  lemma SignedDecimalRoundTrip(x: int, w: Width)
    requires FitsSigned(x, w) && x != MinInt64
    ensures SignedValue(FormatInt(x), w) == Ok(x)
  {
    if x >= 0 {
      assert FormatInt(x) == DecimalString(x);
      SignedDecimalRoundTripPositive(x, w);
    } else {
      var n: nat := -x;
      assert FormatInt(x) == "-" + DecimalString(n);
      SignedDecimalRoundTripNegative(n, w);
      assert -(n as int) == x;
    }
  }

  lemma SignedDecimalRoundTripPositive(n: nat, w: Width)
    requires FitsSigned(n, w)
    ensures SignedValue(DecimalString(n), w) == Ok(n)
  {
    if n != 0 {
      DecimalShape(n);
      ParseUintFormat(n);
      SignedDecimalText(DecimalString(n), false, DecimalString(n), n, w);
    }
  }

  lemma SignedDecimalRoundTripNegative(n: nat, w: Width)
    requires 0 < n <= MaxInt64 && FitsSigned(-(n as int), w)
    ensures SignedValue("-" + DecimalString(n), w) == Ok(-(n as int))
  {
    DecimalShape(n);
    ParseUintFormat(n);
    SignedDecimalText("-" + DecimalString(n), true, DecimalString(n), n, w);
  }

  /** A decimal numeral d of value n, without leading zero, after an optional '-': its
      signed value when the magnitude is an int64, an error when it is not. */
  lemma SignedDecimalText(t: string, negative: bool, d: string, n: nat, w: Width)
    requires d != [] && '1' <= d[0] <= '9' && ':' !in d && '_' !in d
    requires t == if negative then "-" + d else d
    requires ParseUint64(d, 10) == Some(n)
    ensures var x := if negative then -(n as int) else n;
      n <= MaxInt64 && FitsSigned(x, w) ==> SignedValue(t, w) == Ok(x)
    ensures n > MaxInt64 ==> SignedValue(t, w) == Err(InvalidInteger(d))
  {
    SignedValueSign(t, if negative then "-" else "", d, w);
    SignedBodyDecimal(d, negative, w);
    SignedRadixOf(d, 10, negative, n, w);
  }

  /** The error direction of the ParseInt tail: digits strconv.ParseInt rejects, or an
      int64 value that does not fit the target once the sign is applied, give "Integer"
      with the digits. */
  lemma SignedRadixRejects(d: string, base: nat, negative: bool, w: Width)
    ensures ParseInt64(d, base).None? ==> SignedRadix(d, base, negative, w) == Err(InvalidInteger(d))
    ensures var p := ParseInt64(d, base);
      p.Some? && !FitsSigned(WrapSigned(if negative then -p.value else p.value, 64), w)
      ==> SignedRadix(d, base, negative, w) == Err(InvalidInteger(d))
  {
  }

  /** The same for the ParseUint tail: rejected digits, or a value too wide for the
      target, give "Unsigned Integer" with the digits. */
  lemma UnsignedRadixRejects(d: string, base: nat, w: Width)
    ensures ParseUint64(d, base).None? ==> UnsignedRadix(d, base, w) == Err(InvalidUnsigned(d))
    ensures var p := ParseUint64(d, base);
      p.Some? && !FitsUnsigned(p.value, w) ==> UnsignedRadix(d, base, w) == Err(InvalidUnsigned(d))
  {
  }

  /** strconv.ParseInt on unsigned digits: their value when it is an int64, negated on
      request and range-checked; an error when it is beyond int64. */
  lemma SignedRadixOf(d: string, base: nat, negative: bool, n: nat, w: Width)
    requires d != [] && d[0] != '-' && d[0] != '+'
    requires ParseUint64(d, base) == Some(n)
    ensures var x := if negative then -(n as int) else n;
      n <= MaxInt64 && FitsSigned(x, w) ==> SignedRadix(d, base, negative, w) == Ok(x)
    ensures n > MaxInt64 ==> SignedRadix(d, base, negative, w) == Err(InvalidInteger(d))
  {
    assert ParseInt64(d, base) == if n <= MaxInt64 then Some(n) else None;
  }

  /** Branch lemmas. Text without underscores that is a sign followed by a numeral, or a
      numeral that does not itself start with a sign, is that numeral read by SignedBody,
      negated for '-'. */
  lemma SignedValueSign(t: string, sign: string, body: string, w: Width)
    requires sign == "" || sign == "-" || sign == "+"
    requires body != [] && '_' !in body && t == sign + body
    requires sign == "" ==> body[0] != '-' && body[0] != '+'
    ensures SignedValue(t, w) == SignedBody(body, sign == "-", w)
  {
    assert '_' !in t;
    assert t[|sign|..] == body;
    assert t[0] == if sign == "" then body[0] else sign[0];
  }

  lemma UnsignedValueSign(t: string, sign: string, body: string, w: Width)
    requires sign == "" || sign == "+"
    requires body != [] && '_' !in body && t == sign + body
    requires sign == "" ==> body[0] != '-' && body[0] != '+'
    ensures UnsignedValue(t, w) == UnsignedBody(body, w)
  {
    assert '_' !in t;
    assert t[|sign|..] == body;
    assert t[0] == if sign == "" then body[0] else sign[0];
  }

  /** A numeral that does not start with '0' and holds no colon is read in base 10;
      strconv.ParseInt then reads a second sign itself. */
  lemma SignedBodyDecimal(d: string, negative: bool, w: Width)
    requires d != [] && d[0] != '0' && ':' !in d
    ensures SignedBody(d, negative, w) == SignedRadix(d, 10, negative, w)
  {
    assert !("0b" <= d) && !("0x" <= d);
  }

  lemma UnsignedBodyDecimal(d: string, w: Width)
    requires d != [] && d[0] != '0' && ':' !in d
    ensures UnsignedBody(d, w) == UnsignedRadix(d, 10, w)
  {
    assert !("0b" <= d) && !("0x" <= d);
  }

  /** "0b" selects base 2 and "0x" base 16, with the prefix dropped. */
  lemma SignedBodyPrefixed(body: string, prefix: string, d: string, negative: bool, w: Width)
    requires (prefix == "0b" || prefix == "0x") && body == prefix + d
    ensures SignedBody(body, negative, w) == SignedRadix(d, if prefix == "0b" then 2 else 16, negative, w)
  {
    assert body[..2] == prefix && body[2..] == d;
  }

  /** Any other leading '0' selects base 8, with the '0' dropped; it is looked at before
      the colon is. */
  lemma SignedBodyOctal(body: string, d: string, negative: bool, w: Width)
    requires d != [] && d[0] != 'b' && d[0] != 'x' && body == "0" + d
    ensures SignedBody(body, negative, w) == SignedRadix(d, 8, negative, w)
  {
    assert body[1..] == d && body[1] == d[0] && body[0] == '0';
  }

  lemma UnsignedBodyOctal(body: string, d: string, w: Width)
    requires d != [] && d[0] != 'b' && d[0] != 'x' && body == "0" + d
    ensures UnsignedBody(body, w) == UnsignedRadix(d, 8, w)
  {
    assert body[1..] == d && body[1] == d[0] && body[0] == '0';
  }

  /** A three-digit numeral of a base parses as its value. */
  lemma ParsesAsThree(s: string, base: nat, n: nat)
    requires |s| == 3 && DigitValue(s[0]) < base && DigitValue(s[1]) < base && DigitValue(s[2]) < base
    requires n == (DigitValue(s[0]) * base + DigitValue(s[1])) * base + DigitValue(s[2]) && n <= MaxUint64
    ensures ParseUint64(s, base) == Some(n)
  {
    DigitsValueOfThree(s, base);
    assert AllDigitsIn(s, base);
  }

  /** The decimal numeral of n carries no underscore, colon or sign, and begins with '0'
      only when it is "0". */
  lemma DecimalShape(n: nat)
    ensures var d := DecimalString(n);
      && '_' !in d && ':' !in d && d[0] != '-' && d[0] != '+'
      && (n != 0 ==> '1' <= d[0] <= '9' && !("0b" <= d) && !("0x" <= d))
  {
    var d := DecimalString(n);
    assert forall i | 0 <= i < |d| :: IsDigit(d[i]);
  }

  /** A negative numeral whose magnitude is beyond the largest int64 is refused, even the
      magnitude 2^63 of the most negative int64: the sign is stripped first and strconv.ParseInt
      reads the magnitude alone, so "-9223372036854775808" does not resolve into an int64. */
  lemma SignedLargeMagnitudeRejected(m: nat, w: Width)
    requires MaxInt64 < m <= MaxUint64
    ensures SignedValue("-" + DecimalString(m), w) == Err(InvalidInteger(DecimalString(m)))
  {
    DecimalShape(m);
    ParseUintFormat(m);
    SignedDecimalText("-" + DecimalString(m), true, DecimalString(m), m, w);
  }

  lemma SignedMinInt64Rejected(w: Width)
    ensures SignedValue(FormatInt(MinInt64), w).Err?
  {
    SignedLargeMagnitudeRejected(-MinInt64, w);
  }

  /** A numeral written by strconv.FormatUint reads back as its value in any width it fits. */
  lemma UnsignedDecimalRoundTrip(n: nat, w: Width)
    requires FitsUnsigned(n, w)
    ensures UnsignedValue(DecimalString(n), w) == Ok(n)
  {
    var d := DecimalString(n);
    assert '_' !in d && ':' !in d by {
      assert forall i | 0 <= i < |d| :: IsDigit(d[i]);
    }
    if d != "0" {
      assert !("0b" <= d) && !("0x" <= d);
      ParseUintFormat(n);
    }
  }

  /** A numeral that starts with a digit other than '0' and holds a colon is read in
      base 60. */
  lemma SignedBodySexagesimal(body: string, negative: bool, w: Width)
    requires body != [] && '1' <= body[0] <= '9' && ':' in body
    ensures SignedBody(body, negative, w) == SignedSexagesimal(body, negative, w)
  {
    assert body != "0" && !("0b" <= body) && !("0x" <= body);
  }

  /** A decimal numeral: one or more ASCII digits, leading zeros allowed. */
  predicate Numeral(d: string) {
    d != [] && AllDigits(d)
  }

  /** A numeral whose value is an int64 parses as it. */
  lemma NumeralParses(d: string, n: nat)
    requires Numeral(d) && DigitsValue(d, 10) == n && n <= MaxInt64
    ensures ParseInt64(d, 10) == Some(n)
  {
    NumeralParsesUnsigned(d, n);
  }

  lemma NumeralParsesUnsigned(d: string, n: nat)
    requires Numeral(d) && DigitsValue(d, 10) == n && n <= MaxUint64
    ensures ParseUint64(d, 10) == Some(n)
  {
    assert AllDigitsIn(d, 10) by {
      forall i | 0 <= i < |d|
        ensures DigitValue(d[i]) < 10
      {
        assert IsDigit(d[i]);
      }
    }
  }

  /** da:db with da not starting with '0': no underscore, a leading digit other than '0',
      and the two numerals back when split at the colon. */
  lemma TwoGroupsText(da: string, db: string)
    requires Numeral(da) && Numeral(db) && da[0] != '0'
    ensures var t := da + ":" + db;
      && '_' !in t && t != [] && '1' <= t[0] <= '9' && ':' in t
      && Split(t, ':') == [da, db]
  {
    var t := da + ":" + db;
    assert forall i | 0 <= i < |t| :: t[i] == ':' || IsDigit(t[i]) by {
      forall i | 0 <= i < |t|
        ensures t[i] == ':' || IsDigit(t[i])
      {
        if i < |da| {
          assert t[i] == da[i];
        } else if i > |da| {
          assert t[i] == db[i - |da| - 1];
        }
      }
    }
    assert t[0] == da[0] && IsDigit(da[0]) && t[|da|] == ':';
    assert ':' !in da && ':' !in db by {
      assert forall i | 0 <= i < |da| :: IsDigit(da[i]);
      assert forall i | 0 <= i < |db| :: IsDigit(db[i]);
    }
    assert Join([da, db], ':') == t;
    SplitJoin([da, db], ':');
  }

  /** Sexagesimal text whose groups all fit denotes their sum, truncated to the width. */
  lemma SignedSexagesimalText(t: string, gs: seq<string>, w: Width, total: int)
    requires '_' !in t && t != [] && '1' <= t[0] <= '9' && ':' in t && Split(t, ':') == gs
    requires SignedGroupsFitFrom(gs, 0, w)
    requires SignedGroupsSum(gs, 0) == total
    ensures SignedValue(t, w) == Ok(WrapSigned(total, w))
  {
    SignedValueSign(t, "", t, w);
    SignedBodySexagesimal(t, false, w);
    SignedSexagesimalOk(t, false, w, total);
  }

  /** When every group fits, the number is the wrapped, signed sum of its terms. */
  lemma SignedSexagesimalOk(body: string, negative: bool, w: Width, total: int)
    requires SignedGroupsFitFrom(Split(body, ':'), 0, w)
    requires SignedGroupsSum(Split(body, ':'), 0) == total
    ensures SignedSexagesimal(body, negative, w) == Ok(WrapSigned(if negative then -total else total, w))
  {
  }

  lemma SignedPairFits(da: string, db: string, a: nat, b: nat, w: Width)
    requires Numeral(da) && Numeral(db)
    requires DigitsValue(da, 10) == a && DigitsValue(db, 10) == b
    requires FitsSigned(a * 60, w) && FitsSigned(b, w)
    ensures SignedGroupsFitFrom([da, db], 0, w)
    ensures SignedGroupsSum([da, db], 0) == a * 60 + b
  {
    var gs := [da, db];
    NumeralParses(da, a);
    NumeralParses(db, b);
    assert SignedTerm(gs[0]) == a && SignedTerm(gs[1]) == b;
    assert Scaled(a, 1) == a * 60 && Scaled(b, 0) == b;
    assert FitsSigned(a * 60, 64) && FitsSigned(b, 64);
    assert SignedGroupFits(gs, 0, w) && SignedGroupFits(gs, 1, w);
    assert SignedGroupsFitFrom(gs, 2, w) && SignedGroupsFitFrom(gs, 1, w);
    assert SignedGroupsSum(gs, 2) == 0;
  }

  // Worked examples.

  lemma ExampleUnderscores()
    ensures SignedValue("1_000", 16) == SignedValue("1000", 16)
  {
    StripUnderscoresAppend("1_", "000");
    assert "1_" + "000" == "1_000";
    assert StripUnderscores("1_") == "1" && StripUnderscores("000") == "000";
    assert "1" + "000" == "1000";
    SignedValueIgnoresUnderscores("1_000", 16);
  }

  /** strconv.ParseInt accepts a second sign after the one the resolver strips. */
  lemma ExampleDoubleSign()
    ensures SignedValue("--5", 64) == Ok(5) && SignedValue("+-5", 64) == Ok(-5)
  {
    assert "--5" == "-" + "-5" && "+-5" == "+" + "-5";
    SignedValueSign("--5", "-", "-5", 64);
    SignedValueSign("+-5", "+", "-5", 64);
    SignedBodyDecimal("-5", true, 64);
    SignedBodyDecimal("-5", false, 64);
    assert "-5"[1..] == "5";
    assert ParseInt64("-5", 10) == Some(-5);
  }

  /** A leading zero selects octal before the colon is looked at, so "0:30" is an octal
      numeral with a colon in it and fails. */
  lemma ExampleOctalBeforeColon()
    ensures SignedValue("0:30", 64) == Err(InvalidInteger(":30"))
  {
    assert "0:30" == "" + "0:30" && "0:30" == "0" + ":30";
    SignedValueSign("0:30", "", "0:30", 64);
    SignedBodyOctal("0:30", ":30", false, 64);
    assert !AllDigitsIn(":30", 8) by {
      assert DigitValue(":30"[0]) == 36;
    }
  }

  /** 2·60 + 8 = 128: each term fits an int8, but the sum is not checked and wraps. */
  lemma ExampleSexagesimalWraps()
    ensures SignedValue("2:8", 8) == Ok(-128)
  {
    assert "2:8" == "" + "2:8";
    SignedValueSign("2:8", "", "2:8", 8);
    SignedBodySexagesimal("2:8", false, 8);
    ExampleSexagesimalSum();
  }

  lemma ExampleSexagesimalSum()
    ensures SignedSexagesimal("2:8", false, 8) == Ok(WrapSigned(128, 8))
  {
    TwoGroupsText("2", "8");
    assert "2" + ":" + "8" == "2:8";
    SignedPairFits("2", "8", 2, 8, 8);
    SignedSexagesimalOk("2:8", false, 8, 128);
  }

  lemma ExampleUnsignedNegativeZero()
    ensures UnsignedValue("-0", 64) == Err(NegativeUnsigned("-0"))
  {
  }

  lemma ExampleUnsignedTooWide()
    ensures UnsignedValue("256", 8) == Err(InvalidUnsigned("256"))
  {
    assert "256" == "" + "256";
    UnsignedValueSign("256", "", "256", 8);
    UnsignedBodyDecimal("256", 8);
    ParsesAsThree("256", 10, 256);
  }
}
