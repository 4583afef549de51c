/** resolve and resolveInterface: the entry points of scalar resolution. resolve writes a
    scalar into a target of a given kind, checking the null spellings before anything
    else; resolveInterface infers a Go value for a target of interface type from the
    scalar's first character, its tag and whether it is plain implicit. */
module Resolver {
  import opened Outcomes
  import opened Text
  import opened TwosComplement
  import opened Numerals
  import opened Vocabulary
  import opened Integers
  import opened Floats
  import opened Timestamps

  /** A scalar event of the parser: its text, its tag (empty when it has none) and
      whether it is implicit (plain, untagged). */
  datatype Event = Event(value: string, tag: string, implicit: bool)

  /** The kind of the target (reflect.Kind), with what the resolver reads from its type:
      the bit size of an integer or float, whether a struct is time.Time, whether a slice
      is []byte and the type's name. Go's int and uint are 64 bits wide. */
  datatype TargetKind =
    | StringKind
    | BoolKind
    | SInt(width: Width)
    | UInt(width: Width)
    | FloatKind(bits: FloatBits)
    | InterfaceKind
    | StructKind(isTime: bool)
    | Slice(isByteSlice: bool, typeName: string)
    | OtherKind(kindName: string)

  type Byte = b: int | 0 <= b < 256

  /** What base64.StdEncoding.Decode makes of a text: the bytes, or the offset of the
      first input byte it refuses (a CorruptInputError). */
  datatype Decoded = Decoded(bytes: seq<Byte>) | Corrupt(offset: nat)

  /** Base64 decoding (section 4 of RFC 4648) is not modelled; it is a parameter. */
  type Base64Decoder = string -> Decoded

  /** The values the resolver stores. */
  datatype Value =
    | Nil
    | Str(s: string)
    | Bool(b: bool)
    | Int(i: int)
    | Uint(u: int)
    | Float(f: FloatVal)
    | Time(t: Timestamp)
    | Bytes(bytes: seq<Byte>)
      /** the zero value of a struct (time.Time{} included), of a slice, of another kind */
    | ZeroStruct
    | NilSlice
    | ZeroOther(kindName: string)

  /** reflect.Zero of the target's type. */
  function ZeroValue(kind: TargetKind): Value {
    match kind
    case StringKind => Str("")
    case BoolKind => Bool(false)
    case SInt(_) => Int(0)
    case UInt(_) => Uint(0)
    case FloatKind(_) => Float(Zero)
    case InterfaceKind => Nil
    case StructKind(_) => ZeroStruct
    case Slice(_, _) => NilSlice
    case OtherKind(k) => ZeroOther(k)
  }

  /** Whether a value can be stored in a target of the kind: the Go type system's
      guarantee, plus the range of the integer kinds. */
  predicate HasKind(v: Value, kind: TargetKind) {
    match kind
    case StringKind => v.Str?
    case BoolKind => v.Bool?
    case SInt(w) => v.Int? && FitsSigned(v.i, w)
    case UInt(w) => v.Uint? && FitsUnsigned(v.u, w)
    case FloatKind(_) => v.Float?
    case InterfaceKind => true
    case StructKind(isTime) => v.ZeroStruct? || (isTime && v.Time?)
    case Slice(isByteSlice, _) => v.NilSlice? || (isByteSlice && v.Bytes?)
    case OtherKind(k) => v == ZeroOther(k)
  }

  /** The errors resolve returns for a target kind, with the text they carry. */
  predicate ErrorFor(kind: TargetKind, val: string, e: Error) {
    match kind
    case StringKind => false
    case BoolKind => e == InvalidBoolean(val)
    case SInt(_) => e.InvalidInteger?
    case UInt(_) => e.NegativeUnsigned? || e.InvalidUnsigned?
    case FloatKind(_) => e.InvalidFloat?
    case InterfaceKind => false
    case StructKind(_) => e == InvalidTimestamp(val)
    case Slice(isByteSlice, name) => if isByteSlice then e.InvalidBase64? else e == CannotResolveInto(name)
    case OtherKind(k) => e == ResolveFailed(k)
  }

  function MapOutcome<T>(o: Outcome<T>, f: T -> Value): Outcome<Value> {
    match o
    case Ok(x) => Ok(f(x))
    case Err(e) => Err(e)
    case Panic => Panic
  }

  /** resolve: a null spelling gives the target's zero value, whatever its kind; any other
      text is handed to the conversion for the kind. A value stored into an interface
      must not be nil, and a time stored into a struct other than time.Time makes
      reflect panic. */
  function Resolve(e: Event, kind: TargetKind, accepts: FloatCheck, decode: Base64Decoder): (r: Outcome<Value>)
    ensures r.Ok? ==> HasKind(r.value, kind)
    ensures r.Err? ==> ErrorFor(kind, e.value, r.error)
  {
    var val := e.value;
    if IsNull(val) then Ok(ZeroValue(kind))
    else
      match kind
      case StringKind => Ok(Str(val))
      case BoolKind => MapOutcome(ResolveBool(val), b => Bool(b))
      case SInt(w) => MapOutcome(SignedValue(val, w), i => Int(i))
      case UInt(w) => MapOutcome(UnsignedValue(val, w), u => Uint(u))
      case FloatKind(bits) => MapOutcome(FloatValue(accepts, val, bits), f => Float(f))
      case InterfaceKind => StoreInterface(ResolveInterface(e, accepts))
      case StructKind(isTime) => StoreTime(ResolveTime(val), isTime)
      case Slice(isByteSlice, name) =>
        if !isByteSlice then Err(CannotResolveInto(name)) else StoreBytes(decode(val))
      case OtherKind(k) => Err(ResolveFailed(k))
  }

  /** v.Set of what resolveInterface gives: reflect panics on a nil value. */
  function StoreInterface(o: Outcome<Value>): (r: Outcome<Value>)
    ensures r.Ok? ==> o.Ok? && !o.value.Nil? && r.value == o.value
    ensures r.Err? ==> o.Err? && r.error == o.error
  {
    match o
    case Ok(v) => if v.Nil? then Panic else Ok(v)
    case Err(x) => Err(x)
    case Panic => Panic
  }

  /** v.Set of a resolved time: reflect panics unless the struct is time.Time. */
  function StoreTime(o: Outcome<Timestamp>, isTime: bool): (r: Outcome<Value>)
    ensures r.Ok? ==> isTime && o.Ok? && r.value == Time(o.value)
    ensures r.Err? ==> o.Err? && r.error == o.error
  {
    match o
    case Ok(t) => if isTime then Ok(Time(t)) else Panic
    case Err(x) => Err(x)
    case Panic => Panic
  }

  /** v.SetBytes of the decoded bytes, or the decoder's error. */
  function StoreBytes(d: Decoded): (r: Outcome<Value>)
    ensures r.Ok? ==> d.Decoded? && r.value == Bytes(d.bytes)
    ensures r.Err? ==> d.Corrupt? && r.error == InvalidBase64(d.offset)
  {
    match d
    case Corrupt(offset) => Err(InvalidBase64(offset))
    case Decoded(bytes) => Ok(Bytes(bytes))
  }

  /** The first characters resolveInterface dispatches on. */
  const Signs: set<char> := {'-', '+'}
  const Nulls: set<char> := {'~', 'n', 'N'}
  const Bools: set<char> := {'t', 'T', 'f', 'F', 'y', 'Y', 'n', 'N', 'o', 'O'}

  /** resolveInterface: nil for an empty scalar; the text itself when it has neither a tag
      nor the implicit flag; otherwise a guess by the first character, in the order of
      the Go switch: a sign (which falls through) or a digit tries an int64, then a
      float64, then, without a sign, a timestamp; '~', 'n' and 'N' try the null spellings,
      then a boolean; '.' tries a float64; a boolean letter tries a boolean. A failed
      guess, or any other first character, leaves the text. */
  function ResolveInterface(e: Event, accepts: FloatCheck): (r: Outcome<Value>)
    ensures !r.Err?
  {
    var val := e.value;
    if val == [] then Ok(Nil)
    else if e.tag == [] && !e.implicit then Ok(Str(val))
    else Guess(val, accepts)
  }

  /** The switch on the first character. */
  function Guess(val: string, accepts: FloatCheck): (r: Outcome<Value>)
    requires val != []
    ensures !r.Err?
  {
    var c := val[0];
    if c in Signs || IsDigit(c) then GuessNumber(val, accepts, c in Signs)
    else if c in Nulls then (if IsNull(val) then Ok(Nil) else GuessBool(val))
    else if c == '.' then GuessFloat(val, accepts)
    else if c in Bools then GuessBool(val)
    else Ok(Str(val))
  }

  /** An int64, else a float64, else (without a sign) a timestamp, else the text. A
      panic of resolve_int or resolve_float is passed on. */
  function GuessNumber(val: string, accepts: FloatCheck, signed: bool): (r: Outcome<Value>)
    ensures !r.Err?
  {
    match SignedValue(val, 64)
    case Panic => Panic
    case Ok(i) => Ok(Int(i))
    case Err(_) =>
      (match FloatValue(accepts, val, 64)
       case Ok(f) => Ok(Float(f))
       case Panic => Panic
       case Err(_) => if signed then Ok(Str(val)) else GuessTime(val))
  }

  function GuessTime(val: string): (r: Outcome<Value>)
    ensures r.Ok? && (r.value.Time? || r.value == Str(val))
  {
    match ResolveTime(val)
    case Ok(t) => Ok(Time(t))
    case _ => Ok(Str(val))
  }

  function GuessFloat(val: string, accepts: FloatCheck): (r: Outcome<Value>)
    ensures !r.Err?
  {
    match FloatValue(accepts, val, 64)
    case Ok(f) => Ok(Float(f))
    case Panic => Panic
    case Err(_) => Ok(Str(val))
  }

  function GuessBool(val: string): (r: Outcome<Value>)
    ensures r.Ok? && (r.value.Bool? || r.value == Str(val))
  {
    match ResolveBool(val)
    case Ok(b) => Ok(Bool(b))
    case _ => Ok(Str(val))
  }

  /** The text of an error, as Go builds it. */
  function Message(e: Error): string {
    match e
    case InvalidBoolean(t) => "Invalid boolean: " + t
    case InvalidInteger(t) => "Integer: " + t
    case NegativeUnsigned(t) => "Unsigned int with negative value: " + t
    case InvalidUnsigned(t) => "Unsigned Integer: " + t
    case InvalidFloat(t) => "Float: " + t
    case InvalidTimestamp(t) => "Unexpected timestamp: " + t
    case InvalidBase64(offset) => "illegal base64 data at input byte " + FormatInt(offset)
    case CannotResolveInto(name) => "Cannot resolve into " + name
    case ResolveFailed(kind) => "Resolve failed for " + kind
  }

  /** The text an error carries after its fixed prefix. */
  function ErrorText(e: Error): string {
    match e
    case InvalidBoolean(t) => t
    case InvalidInteger(t) => t
    case NegativeUnsigned(t) => t
    case InvalidUnsigned(t) => t
    case InvalidFloat(t) => t
    case InvalidTimestamp(t) => t
    case InvalidBase64(offset) => FormatInt(offset)
    case CannotResolveInto(name) => name
    case ResolveFailed(kind) => kind
  }

  /** Every message is a fixed prefix, chosen by the kind of error, followed by the text
      the error carries. */
  lemma MessageEndsWithText(e: Error)
    ensures var m := Message(e); var t := ErrorText(e);
      |t| < |m| && m[|m| - |t|..] == t
  {
  }

  // ---------------------------------------------------------------------------
  // Properties of resolve
  // ---------------------------------------------------------------------------

  /** The null spellings come first: they give the zero value of every kind of target,
      an interface included, whatever the tag or the implicit flag. */
  lemma NullFirst(e: Event, kind: TargetKind, accepts: FloatCheck, decode: Base64Decoder)
    requires e.value in {"~", "null", "Null", "NULL", ""}
    ensures Resolve(e, kind, accepts, decode) == Ok(ZeroValue(kind))
    ensures HasKind(ZeroValue(kind), kind)
  {
  }

  /** Past the null check, resolve hands the text to the converter for the kind and keeps
      its outcome: the text itself for a string, resolve_bool, resolve_int and resolve_uint
      at the target's width, resolve_float at its bit size, the decoded bytes for []byte,
      and the dispatcher's own errors for other slices and unsupported kinds. */
  lemma ResolveDispatch(e: Event, kind: TargetKind, accepts: FloatCheck, decode: Base64Decoder)
    requires !IsNull(e.value)
    ensures var r := Resolve(e, kind, accepts, decode); var val := e.value;
      && (kind.StringKind? ==> r == Ok(Str(val)))
      && (kind.BoolKind? ==> r == MapOutcome(ResolveBool(val), b => Bool(b)))
      && (kind.SInt? ==> r == MapOutcome(SignedValue(val, kind.width), i => Int(i)))
      && (kind.UInt? ==> r == MapOutcome(UnsignedValue(val, kind.width), u => Uint(u)))
      && (kind.FloatKind? ==> r == MapOutcome(FloatValue(accepts, val, kind.bits), f => Float(f)))
      && (kind.InterfaceKind? ==> r == StoreInterface(ResolveInterface(e, accepts)))
      && (kind.StructKind? ==> r == StoreTime(ResolveTime(val), kind.isTime))
      && (kind.Slice? && kind.isByteSlice ==> r == StoreBytes(decode(val)))
      && (kind.Slice? && !kind.isByteSlice ==> r == Err(CannotResolveInto(kind.typeName)))
      && (kind.OtherKind? ==> r == Err(ResolveFailed(kind.kindName)))
  {
  }

  /** A null spelling is empty or starts with '~', 'n' or 'N'. */
  lemma NullStart(val: string)
    requires IsNull(val)
    ensures val == [] || val[0] in Nulls
  {
  }

  /** When resolve panics: an integer target given a text that is empty or a lone sign
      once underscores are removed ("_", "-", "+_", but not "", which is null), an
      unsigned one given "_"-only text or a lone '+', a float one given underscores only,
      an interface target when resolveInterface panics, and a struct other than time.Time
      given a valid timestamp. Nothing else panics. */
  lemma ResolvePanics(e: Event, kind: TargetKind, accepts: FloatCheck, decode: Base64Decoder)
    ensures var s := StripUnderscores(e.value);
      Resolve(e, kind, accepts, decode).Panic? <==> !IsNull(e.value) && (match kind
        case SInt(_) => s == [] || s == "-" || s == "+"
        case UInt(_) => s == [] || s == "+"
        case FloatKind(_) => s == []
        case InterfaceKind => ResolveInterface(e, accepts).Panic?
        case StructKind(isTime) => !isTime && ResolveTime(e.value).Ok?
        case _ => false)
  {
    if !IsNull(e.value) && kind.InterfaceKind? {
      InterfaceNeverNil(e, accepts);
    }
  }

  // ---------------------------------------------------------------------------
  // Properties of resolveInterface
  // ---------------------------------------------------------------------------

  /** resolveInterface gives nil exactly for the empty text, and for the null spellings
      when the scalar has a tag or is implicit. */
  lemma InterfaceNilExactly(e: Event, accepts: FloatCheck)
    ensures ResolveInterface(e, accepts) == Ok(Nil)
      <==> e.value == [] || (IsNull(e.value) && (e.tag != [] || e.implicit))
  {
    if e.value != [] && (e.tag != [] || e.implicit) {
      assert ResolveInterface(e, accepts) == Guess(e.value, accepts);
      GuessNilExactly(e.value, accepts);
    }
  }

  /** The guess is nil exactly for a null spelling: only the '~', 'n' and 'N' case checks
      for one, and every other branch yields a number, a time, a boolean or the text. */
  lemma GuessNilExactly(val: string, accepts: FloatCheck)
    requires val != []
    ensures Guess(val, accepts) == Ok(Nil) <==> IsNull(val)
  {
    var c := val[0];
    if IsNull(val) {
      NullStart(val);
      assert c !in Signs && !IsDigit(c);
    } else if c in Signs || IsDigit(c) {
      assert Guess(val, accepts) == GuessNumber(val, accepts, c in Signs);
    }
  }

  /** So resolve never stores nil in an interface: every text resolveInterface turns into
      nil is a null spelling, which resolve has answered before. */
  lemma InterfaceNeverNil(e: Event, accepts: FloatCheck)
    requires !IsNull(e.value)
    ensures ResolveInterface(e, accepts) != Ok(Nil)
  {
    InterfaceNilExactly(e, accepts);
  }

  /** resolveInterface panics exactly on a tagged or implicit scalar that starts with a
      sign and is nothing but that sign once underscores are removed: resolve_int reads
      the first character of the empty text after the sign. */
  lemma InterfacePanicsExactly(e: Event, accepts: FloatCheck)
    ensures ResolveInterface(e, accepts).Panic?
      <==> && (e.tag != [] || e.implicit) && e.value != [] && e.value[0] in Signs
           && StripUnderscores(e.value) == [e.value[0]]
  {
    var val := e.value;
    if val != [] && (e.tag != [] || e.implicit) {
      var c := val[0];
      assert ResolveInterface(e, accepts) == Guess(val, accepts);
      if c in Signs || IsDigit(c) || c == '.' {
        assert StripUnderscores(val) == [c] + StripUnderscores(val[1..]);
      }
    }
  }

  /** A scalar with neither a tag nor the implicit flag (a quoted one) stays text. */
  lemma QuotedStaysText(e: Event, accepts: FloatCheck)
    requires e.value != [] && e.tag == [] && !e.implicit
    ensures ResolveInterface(e, accepts) == Ok(Str(e.value))
  {
  }

  /** The fallback is the text itself: a string resolveInterface returns is the scalar. */
  lemma InterfaceTextIsScalar(e: Event, accepts: FloatCheck)
    requires ResolveInterface(e, accepts).Ok? && ResolveInterface(e, accepts).value.Str?
    ensures ResolveInterface(e, accepts).value.s == e.value
  {
  }

  /** What resolveInterface infers is what resolve gives a target of that type: an int64
      for an integer, a float64 for a float, time.Time for a timestamp, a bool for a
      boolean. */
  lemma InferredIntAgrees(e: Event, accepts: FloatCheck, decode: Base64Decoder, i: int)
    requires ResolveInterface(e, accepts) == Ok(Int(i))
    ensures Resolve(e, SInt(64), accepts, decode) == Ok(Int(i))
  {
    NullInference(e, accepts);
    var val := e.value;
    assert val != [] && (e.tag != [] || e.implicit);
    assert ResolveInterface(e, accepts) == Guess(val, accepts);
    assert val[0] in Signs || IsDigit(val[0]);
    assert GuessNumber(val, accepts, val[0] in Signs) == Ok(Int(i));
  }

  lemma InferredFloatAgrees(e: Event, accepts: FloatCheck, decode: Base64Decoder, f: FloatVal)
    requires ResolveInterface(e, accepts) == Ok(Float(f))
    ensures Resolve(e, FloatKind(64), accepts, decode) == Ok(Float(f))
  {
    NullInference(e, accepts);
    var val := e.value;
    assert val != [] && (e.tag != [] || e.implicit);
    assert ResolveInterface(e, accepts) == Guess(val, accepts);
    if val[0] in Signs || IsDigit(val[0]) {
      assert GuessNumber(val, accepts, val[0] in Signs) == Ok(Float(f));
    } else {
      assert GuessFloat(val, accepts) == Ok(Float(f));
    }
  }

  lemma InferredTimeAgrees(e: Event, accepts: FloatCheck, decode: Base64Decoder, t: Timestamp)
    requires ResolveInterface(e, accepts) == Ok(Time(t))
    ensures Resolve(e, StructKind(true), accepts, decode) == Ok(Time(t))
  {
    NullInference(e, accepts);
    var val := e.value;
    assert val != [] && (e.tag != [] || e.implicit);
    GuessedTime(val, accepts, t);
    StoredTime(e, accepts, decode, t);
  }

  /** Only the digit case, after both numbers failed, guesses a timestamp. */
  lemma GuessedTime(val: string, accepts: FloatCheck, t: Timestamp)
    requires val != [] && Guess(val, accepts) == Ok(Time(t))
    ensures ResolveTime(val) == Ok(t)
  {
    assert IsDigit(val[0]);
    assert GuessNumber(val, accepts, false) == Ok(Time(t));
    assert GuessTime(val) == Ok(Time(t));
  }

  /** A timestamp that is not a null spelling is stored into time.Time as it is. */
  lemma StoredTime(e: Event, accepts: FloatCheck, decode: Base64Decoder, t: Timestamp)
    requires !IsNull(e.value) && ResolveTime(e.value) == Ok(t)
    ensures Resolve(e, StructKind(true), accepts, decode) == Ok(Time(t))
  {
    ResolveDispatch(e, StructKind(true), accepts, decode);
  }

  lemma InferredBoolAgrees(e: Event, accepts: FloatCheck, decode: Base64Decoder, b: bool)
    requires ResolveInterface(e, accepts) == Ok(Bool(b))
    ensures Resolve(e, BoolKind, accepts, decode) == Ok(Bool(b))
  {
    NullInference(e, accepts);
    var val := e.value;
    assert val != [] && (e.tag != [] || e.implicit);
    assert ResolveInterface(e, accepts) == Guess(val, accepts);
    assert GuessBool(val) == Ok(Bool(b));
  }

  /** A null spelling is nil to resolveInterface, or the text itself when the scalar has
      neither a tag nor the implicit flag: the null check of resolve never hides an
      inferred number, time or bool. */
  lemma NullInference(e: Event, accepts: FloatCheck)
    ensures IsNull(e.value) ==>
      ResolveInterface(e, accepts) == if e.value != [] && e.tag == [] && !e.implicit then Ok(Str(e.value)) else Ok(Nil)
  {
    if IsNull(e.value) && e.value != [] && (e.tag != [] || e.implicit) {
      NullStart(e.value);
      var c := e.value[0];
      assert c !in Signs && !IsDigit(c);
      assert ResolveInterface(e, accepts) == Guess(e.value, accepts);
    }
  }

  /** The int64 guess comes before the float64 guess: a text with a sign or a digit first
      that is an int64 is never a float. */
  lemma IntegersBeforeFloats(e: Event, accepts: FloatCheck)
    requires e.tag != [] || e.implicit
    requires e.value != [] && (e.value[0] in Signs || IsDigit(e.value[0]))
    requires SignedValue(e.value, 64).Ok?
    ensures ResolveInterface(e, accepts) == Ok(Int(SignedValue(e.value, 64).value))
  {
  }

  /** A text with a sign or a digit first that is not an int64 but is a float64 is
      inferred as that float. */
  lemma FloatsAfterIntegers(e: Event, accepts: FloatCheck)
    requires e.tag != [] || e.implicit
    requires e.value != [] && (e.value[0] in Signs || IsDigit(e.value[0]))
    requires SignedValue(e.value, 64).Err? && FloatValue(accepts, e.value, 64).Ok?
    ensures ResolveInterface(e, accepts) == Ok(Float(FloatValue(accepts, e.value, 64).value))
  {
    assert ResolveInterface(e, accepts) == Guess(e.value, accepts);
  }

  /** A text with a digit first that is neither an int64 nor a float64 but is a timestamp
      is inferred as that time. */
  lemma TimestampsAfterFloats(e: Event, accepts: FloatCheck)
    requires e.tag != [] || e.implicit
    requires e.value != [] && IsDigit(e.value[0])
    requires SignedValue(e.value, 64).Err? && FloatValue(accepts, e.value, 64).Err?
    requires ResolveTime(e.value).Ok?
    ensures ResolveInterface(e, accepts) == Ok(Time(ResolveTime(e.value).value))
  {
    assert ResolveInterface(e, accepts) == Guess(e.value, accepts);
    GuessesTime(e.value, accepts);
  }

  lemma GuessesTime(val: string, accepts: FloatCheck)
    requires val != [] && IsDigit(val[0])
    requires SignedValue(val, 64).Err? && FloatValue(accepts, val, 64).Err?
    ensures Guess(val, accepts) == GuessTime(val)
  {
    assert Guess(val, accepts) == GuessNumber(val, accepts, false);
  }

  /** A number guess that fails every conversion leaves the text: after a sign when it is
      neither an int64 nor a float64, after a digit when it is not a timestamp either. */
  lemma FailedNumberStaysText(e: Event, accepts: FloatCheck)
    requires e.tag != [] || e.implicit
    requires e.value != [] && (e.value[0] in Signs || IsDigit(e.value[0]))
    requires SignedValue(e.value, 64).Err? && FloatValue(accepts, e.value, 64).Err?
    requires IsDigit(e.value[0]) ==> ResolveTime(e.value).Err?
    ensures ResolveInterface(e, accepts) == Ok(Str(e.value))
  {
    assert ResolveInterface(e, accepts) == Guess(e.value, accepts);
    if IsDigit(e.value[0]) {
      assert GuessNumber(e.value, accepts, false) == GuessTime(e.value);
    }
  }

  /** A text with '.' first is the float64 it denotes, or the text when it denotes none. */
  lemma DotGuess(e: Event, accepts: FloatCheck)
    requires e.tag != [] || e.implicit
    requires e.value != [] && e.value[0] == '.'
    ensures FloatValue(accepts, e.value, 64).Ok? ==>
      ResolveInterface(e, accepts) == Ok(Float(FloatValue(accepts, e.value, 64).value))
    ensures FloatValue(accepts, e.value, 64).Err? ==> ResolveInterface(e, accepts) == Ok(Str(e.value))
  {
    assert ResolveInterface(e, accepts) == Guess(e.value, accepts);
    assert StripUnderscores(e.value) == [e.value[0]] + StripUnderscores(e.value[1..]);
  }

  /** Any other first character leaves the text. */
  lemma OtherFirstCharacterStaysText(e: Event, accepts: FloatCheck)
    requires e.value != []
    requires var c := e.value[0]; c !in Signs && !IsDigit(c) && c !in Nulls && c != '.' && c !in Bools
    ensures ResolveInterface(e, accepts) == Ok(Str(e.value))
  {
    if e.tag != [] || e.implicit {
      assert ResolveInterface(e, accepts) == Guess(e.value, accepts);
    }
  }

  /** A timestamp is never guessed after a sign: "-2001-12-14" stays text or a number. */
  lemma NoSignedTimestamps(e: Event, accepts: FloatCheck)
    requires e.value != [] && e.value[0] in Signs
    ensures ResolveInterface(e, accepts).Ok? ==> !ResolveInterface(e, accepts).value.Time?
  {
  }

  /** A tagged or implicit scalar that starts with a boolean letter and is not a null
      spelling is a boolean if it is a boolean word, and text otherwise ('n' and 'N' reach
      the boolean lookup through the null case, the other letters directly). */
  lemma BooleanGuess(e: Event, accepts: FloatCheck)
    requires e.tag != [] || e.implicit
    requires e.value != [] && !IsNull(e.value) && e.value[0] in Bools
    ensures ResolveInterface(e, accepts) == GuessBool(e.value)
  {
    var c := e.value[0];
    assert c !in Signs && !IsDigit(c) && c != '.';
    assert ResolveInterface(e, accepts) == Guess(e.value, accepts);
  }

  /** A tagged or implicit scalar that starts with '~' but is not a null spelling stays
      text: the null case falls back on resolve_bool, and no boolean word starts with '~'. */
  lemma TildeStaysText(e: Event, accepts: FloatCheck)
    requires e.tag != [] || e.implicit
    requires e.value != [] && !IsNull(e.value) && e.value[0] == '~'
    ensures ResolveInterface(e, accepts) == Ok(Str(e.value))
  {
    var c := e.value[0];
    assert c !in Signs && !IsDigit(c) && c != '.';
    assert ResolveInterface(e, accepts) == Guess(e.value, accepts);
    assert Lower(e.value)[0] == '~';
  }
}
