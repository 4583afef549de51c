/** resolve_float: the branch structure of float resolution. Underscores are removed, a
    sign is taken off, the names .inf and .nan are recognised in any letter case, and a
    colon selects base 60; everything else is handed to strconv.ParseFloat.

    Float arithmetic is not modelled. A resolved float is kept as the text it was read
    from, and whether strconv.ParseFloat accepts a piece of text (and whether its value,
    scaled by a power of 60, overflows the target) is a parameter: the check. */
module Floats {
  import opened Outcomes
  import opened Text

  /** The bit sizes of Go's float kinds. */
  type FloatBits = b: nat | b == 32 || b == 64 witness 64

  /** accepts(text, k, bits): strconv.ParseFloat(text, bits) returns no error, and its
      value times 60^k does not overflow a float of that many bits. */
  type FloatCheck = (string, nat, FloatBits) -> bool

  /** A float value, by the text that denotes it. */
  datatype FloatVal =
      /** the zero value of a float target */
    | Zero
    | Infinity(negative: bool)
    | NaN
      /** the value strconv.ParseFloat reads from text, negated when negative */
    | Decimal(negative: bool, text: string)
      /** Σ ParseFloat(groups[j])·60^(n-1-j), summed right to left, negated when negative */
    | Sexagesimal(negative: bool, groups: seq<string>)

  /** Whether the text, with underscores removed, starts with '-'. */
  predicate Negative(s: string) {
    s != [] && s[0] == '-'
  }

  /** Every group passes the check for its place: group j of n is scaled by 60^(n-1-j). */
  predicate GroupsAccepted(accepts: FloatCheck, gs: seq<string>, bits: FloatBits) {
    forall k | 0 <= k < |gs| :: accepts(gs[k], |gs| - 1 - k, bits)
  }

  /** Whether a text, after its sign, names infinity or NaN: resolve_float compares it,
      lower-cased, with ".inf" and ".nan". */
  predicate IsInf(body: string) {
    Lower(body) == ".inf"
  }

  predicate IsNaN(body: string) {
    Lower(body) == ".nan"
  }

  /** The float a scalar denotes, or the "Float" error carrying the text after its sign,
      or a panic when nothing is left once underscores are removed. */
  function FloatValue(accepts: FloatCheck, text: string, bits: FloatBits): (r: Outcome<FloatVal>)
    ensures r.Panic? <==> StripUnderscores(text) == []
    ensures r.Err? ==> r == Err(InvalidFloat(AfterSign(StripUnderscores(text))))
    ensures r.Ok? ==> Denotes(accepts, AfterSign(StripUnderscores(text)), Negative(StripUnderscores(text)), bits, r.value)
  {
    var s := StripUnderscores(text);
    if s == [] then Panic else FloatBody(accepts, AfterSign(s), Negative(s), bits)
  }

  /** The float spelled by the text after its sign. */
  function FloatBody(accepts: FloatCheck, body: string, negative: bool, bits: FloatBits): (r: Outcome<FloatVal>)
    ensures !r.Panic?
    ensures r.Err? ==> r == Err(InvalidFloat(body))
    ensures r.Ok? ==> Denotes(accepts, body, negative, bits, r.value)
  {
    if IsInf(body) then Ok(Infinity(negative))
    else if IsNaN(body) then Ok(NaN)
    else if ':' in body then
      var gs := Split(body, ':');
      assert |gs| >= 2 by {
        if |gs| == 1 { assert false; }
      }
      if GroupsAccepted(accepts, gs, bits) then Ok(Sexagesimal(negative, gs))
      else Err(InvalidFloat(body))
    else if accepts(body, 0, bits) then Ok(Decimal(negative, body))
    else Err(InvalidFloat(body))
  }

  /** What each kind of float says about the text after the sign it came from: the sign
      of the text is the sign of the value (a NaN has none), and the number is spelled by
      that text, split at the colons for base 60, every piece accepted by the check. */
  predicate Denotes(accepts: FloatCheck, body: string, negative: bool, bits: FloatBits, v: FloatVal) {
    match v
    case Zero => false
    case Infinity(n) => n == negative && IsInf(body)
    case NaN => IsNaN(body)
    case Decimal(n, b) =>
      && n == negative && b == body && ':' !in body && !IsInf(body) && !IsNaN(body)
      && accepts(body, 0, bits)
    case Sexagesimal(n, gs) =>
      && n == negative && |gs| >= 2 && Join(gs, ':') == body
      && (forall k | 0 <= k < |gs| :: ':' !in gs[k])
      && GroupsAccepted(accepts, gs, bits)
  }

  /** resolve_float: the Go code step by step. */
  method ResolveFloat(accepts: FloatCheck, text: string, bits: FloatBits) returns (r: Outcome<FloatVal>)
    ensures r == FloatValue(accepts, text, bits)
  {
    var val := StripUnderscores(text);
    if val == [] {
      return Panic;
    }
    var negative := false;
    if val[0] == '-' {
      negative := true;
      val := val[1..];
    } else if val[0] == '+' {
      val := val[1..];
    }
    assert val == AfterSign(StripUnderscores(text)) && negative == Negative(StripUnderscores(text));
    var valLower := Lower(val);
    if valLower == ".inf" {
      r := Ok(Infinity(negative));
    } else if valLower == ".nan" {
      r := Ok(NaN);
    } else if ':' in val {
      var digits := Split(val, ':');
      var accepted := CheckGroups(accepts, digits, bits);
      r := if accepted then Ok(Sexagesimal(negative, digits)) else Err(InvalidFloat(val));
    } else if accepts(val, 0, bits) {
      r := Ok(Decimal(negative, val));
    } else {
      r := Err(InvalidFloat(val));
    }
  }

  /** The sexagesimal loop of resolve_float, right to left: each group is parsed and
      scaled by the running power of 60, and the first one rejected stops the loop. */
  method CheckGroups(accepts: FloatCheck, digits: seq<string>, bits: FloatBits) returns (accepted: bool)
    ensures accepted <==> GroupsAccepted(accepts, digits, bits)
  {
    var place := 0;
    var j := |digits| - 1;
    while j >= 0
      invariant -1 <= j < |digits|
      invariant place == |digits| - 1 - j
      invariant forall k | j < k < |digits| :: accepts(digits[k], |digits| - 1 - k, bits)
    {
      if !accepts(digits[j], place, bits) {
        return false;
      }
      place := place + 1;
      j := j - 1;
    }
    return true;
  }

  // ---------------------------------------------------------------------------
  // Properties
  // ---------------------------------------------------------------------------

  /** A text that spells v: its sign, then its number. */
  function Spelling(v: FloatVal): string {
    match v
    case Zero => "0"
    case Infinity(negative) => SignFor(negative, ".inf") + ".inf"
    case NaN => ".nan"
    case Decimal(negative, body) => SignFor(negative, body) + body
    case Sexagesimal(negative, gs) =>
      if gs == [] then "" else SignFor(negative, Join(gs, ':')) + Join(gs, ':')
  }

  /** The sign to write before a number: '-' for a negative one, and '+' when the number
      is empty or itself starts with a sign character, which the resolver would otherwise
      take as the sign. */
  function SignFor(negative: bool, body: string): (sign: string)
    ensures var t := sign + body; t != [] && Negative(t) == negative && AfterSign(t) == body
  {
    if negative then "-" else if body == [] || body[0] == '-' || body[0] == '+' then "+" else ""
  }

  /** A number without underscores, behind the sign SignFor writes, resolves as that
      number with that sign. */
  lemma SignedSpelling(accepts: FloatCheck, negative: bool, body: string, bits: FloatBits)
    requires '_' !in body
    ensures FloatValue(accepts, SignFor(negative, body) + body, bits) == FloatBody(accepts, body, negative, bits)
  {
    var t := SignFor(negative, body) + body;
    assert '_' !in t;
  }

  /** Every resolved float reads back from its spelling: the FloatVal keeps all that the
      resolver looked at. */
  lemma FloatRoundTrip(accepts: FloatCheck, text: string, bits: FloatBits)
    requires FloatValue(accepts, text, bits).Ok?
    ensures var v := FloatValue(accepts, text, bits).value;
      FloatValue(accepts, Spelling(v), bits) == Ok(v)
  {
    var s := StripUnderscores(text);
    BodyRoundTrip(accepts, AfterSign(s), Negative(s), bits);
  }

  /** The same, for the text after the sign. */
  lemma BodyRoundTrip(accepts: FloatCheck, body: string, negative: bool, bits: FloatBits)
    requires '_' !in body
    requires FloatBody(accepts, body, negative, bits).Ok?
    ensures var v := FloatBody(accepts, body, negative, bits).value;
      FloatValue(accepts, Spelling(v), bits) == Ok(v)
  {
    var v := FloatBody(accepts, body, negative, bits).value;
    match v
    case Infinity(n) =>
      assert Lower(".inf") == ".inf";
      SignedSpelling(accepts, n, ".inf", bits);
    case NaN =>
      assert Lower(".nan") == ".nan";
      SignedSpelling(accepts, false, ".nan", bits);
    case Decimal(n, b) =>
      SignedSpelling(accepts, n, b, bits);
    case Sexagesimal(n, gs) =>
      SignedSpelling(accepts, n, body, bits);
      SplitJoin(gs, ':');
  }

  /** The converse of FloatBody's contract: whatever a body denotes, FloatBody returns.
      The names of infinity and NaN give them, accepted colon groups give the base-60
      number, and an accepted decimal gives itself. */
  lemma FloatBodyComplete(accepts: FloatCheck, body: string, negative: bool, bits: FloatBits, v: FloatVal)
    requires Denotes(accepts, body, negative, bits, v)
    ensures FloatBody(accepts, body, negative, bits) == Ok(v)
  {
    match v
    case Infinity(_) =>
    case NaN =>
      assert Lower(body)[1] == 'n';
    case Decimal(_, _) =>
    case Sexagesimal(_, gs) =>
      JoinHasSeparator(gs, ':');
      var i :| 0 <= i < |body| && body[i] == ':';
      assert Lower(body)[i] == ':';
      SplitJoin(gs, ':');
  }

  /** Two or more pieces joined hold the separator. */
  lemma JoinHasSeparator(gs: seq<string>, sep: char)
    requires |gs| >= 2
    ensures exists i :: 0 <= i < |Join(gs, sep)| && Join(gs, sep)[i] == sep
  {
    assert Join(gs, sep)[|gs[0]|] == sep;
  }

  /** Every float a body denotes is read back from that body behind the sign SignFor
      writes: FloatValue is complete for the values it can return. */
  lemma FloatValueComplete(accepts: FloatCheck, body: string, negative: bool, bits: FloatBits, v: FloatVal)
    requires '_' !in body
    requires Denotes(accepts, body, negative, bits, v)
    ensures FloatValue(accepts, SignFor(negative, body) + body, bits) == Ok(v)
  {
    SignedSpelling(accepts, negative, body, bits);
    FloatBodyComplete(accepts, body, negative, bits, v);
  }

  /** Underscores are ignored anywhere in a float. */
  lemma FloatIgnoresUnderscores(accepts: FloatCheck, a: string, b: string, bits: FloatBits)
    ensures FloatValue(accepts, a + "_" + b, bits) == FloatValue(accepts, a + b, bits)
  {
    calc {
      StripUnderscores(a + "_" + b);
      { StripUnderscoresAppend(a + "_", b); }
      StripUnderscores(a + "_") + StripUnderscores(b);
      { StripUnderscoresAppend(a, "_"); assert StripUnderscores("_") == []; }
      StripUnderscores(a) + StripUnderscores(b);
      { StripUnderscoresAppend(a, b); }
      StripUnderscores(a + b);
    }
  }

  /** Letter case does not matter in the name of infinity, and its sign is kept. */
  lemma ExampleNegativeInfinity(accepts: FloatCheck, bits: FloatBits)
    ensures FloatValue(accepts, "-.INF", bits) == Ok(Infinity(true))
  {
    assert Lower(".INF") == ".inf";
    SignedSpelling(accepts, true, ".INF", bits);
  }

  /** A sign on NaN is dropped. */
  lemma ExampleNegativeNaN(accepts: FloatCheck, bits: FloatBits)
    ensures FloatValue(accepts, "-.NaN", bits) == Ok(NaN)
  {
    assert Lower(".NaN") == ".nan";
    SignedSpelling(accepts, true, ".NaN", bits);
  }

  /** A lone sign is not a panic but an empty number: "Float: " with nothing after it,
      unless the check accepts the empty text. */
  lemma ExampleLoneSign(accepts: FloatCheck, bits: FloatBits)
    requires !accepts("", 0, bits)
    ensures FloatValue(accepts, "-", bits) == Err(InvalidFloat(""))
    ensures FloatValue(accepts, "_", bits) == Panic
  {
    assert '_' !in "-";
    assert AfterSign("-") == "";
  }
}
