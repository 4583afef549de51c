/** The two fixed vocabularies of YAML 1.1 scalars the resolver consults: the spellings of
    null, and the words of the boolean type with their values (the tables init fills). */
module Vocabulary {
  import opened Outcomes
  import opened Text

  /** The null spellings. The lookup is exact: "nULL" is not null. */
  const NullValues: set<string> := {"~", "null", "Null", "NULL", ""}

  /** The boolean words, all in lower case; resolve_bool lower-cases its input before
      the lookup. */
  const BoolValues: map<string, bool> := map[
    "y" := true, "yes" := true, "n" := false, "no" := false,
    "true" := true, "false" := false, "on" := true, "off" := false
  ]

  predicate IsNull(val: string) {
    val in NullValues
  }

  /** resolve_bool: the word's value when the lower-cased text is a boolean word, an
      "Invalid boolean" error carrying the text as given otherwise. */
  function ResolveBool(val: string): (r: Outcome<bool>)
    ensures r.Ok? <==> Lower(val) in BoolValues
    ensures r.Ok? ==> r.value == BoolValues[Lower(val)]
    ensures !r.Ok? ==> r == Err(InvalidBoolean(val))
  {
    if Lower(val) in BoolValues then Ok(BoolValues[Lower(val)]) else Err(InvalidBoolean(val))
  }

  /** The canonical spelling of each boolean, as Go's strconv.FormatBool writes it. */
  function FormatBool(b: bool): string {
    if b then "true" else "false"
  }

  /** The true words are exactly y, yes, true and on; the false words exactly n, no,
      false and off (ignoring case): nothing else, no prefix, no partial match. */
  lemma BoolWords(val: string)
    ensures ResolveBool(val) == Ok(true) <==> Lower(val) in {"y", "yes", "true", "on"}
    ensures ResolveBool(val) == Ok(false) <==> Lower(val) in {"n", "no", "false", "off"}
  {
  }

  /** Every boolean reads back from its canonical spelling, in any letter case. */
  lemma BoolRoundTrip(b: bool, spelling: string)
    requires Lower(spelling) == FormatBool(b)
    ensures ResolveBool(spelling) == Ok(b)
  {
  }

  /** Letter case never matters: a text and its lower-cased form resolve alike. */
  lemma BoolCaseInsensitive(val: string)
    ensures ResolveBool(val).Ok? == ResolveBool(Lower(val)).Ok?
    ensures ResolveBool(val).Ok? ==> ResolveBool(val) == ResolveBool(Lower(val))
  {
    LowerIdempotent(val);
  }

  /** No null spelling is a boolean word, in any letter case. */
  lemma NullsAreNotBools(val: string)
    requires IsNull(val)
    ensures ResolveBool(val).Err?
  {
    if val == "Null" {
      assert Lower(val) == "null";
    } else if val == "NULL" {
      assert Lower(val) == "null";
    } else if val == "null" {
      assert Lower(val) == "null";
    } else if val == "~" {
      assert Lower(val) == "~";
    } else {
      assert Lower(val) == "";
    }
  }
}
