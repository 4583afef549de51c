/** The string operations the resolver borrows from Go's strings package, on text modelled
    as a sequence of characters. */
module Text {

  predicate IsDigit(c: char) {
    '0' <= c <= '9'
  }

  /** The blanks the timestamp grammar allows: space and tab. */
  predicate IsBlank(c: char) {
    c == ' ' || c == '\t'
  }

  predicate AllDigits(s: string) {
    forall i | 0 <= i < |s| :: IsDigit(s[i])
  }

  predicate AllBlanks(s: string) {
    forall i | 0 <= i < |s| :: IsBlank(s[i])
  }

  // ---------------------------------------------------------------------------
  // strings.Replace(s, "_", "", -1)
  // ---------------------------------------------------------------------------

  /** s with every underscore removed. */
  function StripUnderscores(s: string): (r: string)
    ensures '_' !in r
    ensures |r| <= |s|
    ensures '_' !in s ==> r == s
  {
    if s == [] then []
    else if s[0] == '_' then StripUnderscores(s[1..])
    else [s[0]] + StripUnderscores(s[1..])
  }

  /** Removing underscores distributes over concatenation, so it is fixed by what it does
      to one character: drop '_', keep everything else. */
  lemma {:induction false} StripUnderscoresAppend(a: string, b: string)
    ensures StripUnderscores(a + b) == StripUnderscores(a) + StripUnderscores(b)
  {
    if a != [] {
      assert (a + b)[0] == a[0] && (a + b)[1..] == a[1..] + b;
      StripUnderscoresAppend(a[1..], b);
    } else {
      assert a + b == b;
    }
  }

  /** Removing underscores twice is removing them once. */
  lemma StripUnderscoresIdempotent(s: string)
    ensures StripUnderscores(StripUnderscores(s)) == StripUnderscores(s)
  {
  }

  /** Exactly the underscores go: the result is shorter by their number. With the
      underscore-free result and StripUnderscoresAppend, this fixes the result. */
  lemma {:induction false} StripUnderscoresLength(s: string)
    ensures |StripUnderscores(s)| == |s| - multiset(s)['_']
  {
    if s != [] {
      assert s == [s[0]] + s[1..];
      assert multiset(s) == multiset{s[0]} + multiset(s[1..]);
      StripUnderscoresLength(s[1..]);
    }
  }

  // ---------------------------------------------------------------------------
  // Taking a sign off
  // ---------------------------------------------------------------------------

  /** The text after its sign, if it starts with '-' or '+'. */
  function AfterSign(s: string): (m: string)
    ensures |m| <= |s|
    ensures s != [] && s[0] != '-' && s[0] != '+' ==> m == s
    ensures s != [] && (s[0] == '-' || s[0] == '+') ==> [s[0]] + m == s
  {
    if s != [] && (s[0] == '-' || s[0] == '+') then s[1..] else s
  }

  // ---------------------------------------------------------------------------
  // strings.ToLower, as far as the resolver can observe it
  // ---------------------------------------------------------------------------

  /** Go's lower-casing of one character, restricted to the characters whose lower case
      is ASCII: A-Z, U+0130 (capital I with dot, lower-cased to 'i') and U+212A (Kelvin
      sign, lower-cased to 'k'). Every other character keeps a non-ASCII lower case, so
      leaving it unchanged does not alter any comparison with an ASCII word. */
  function LowerChar(c: char): (r: char)
    ensures 'A' <= c <= 'Z' ==> r as int == c as int + 32
    ensures r != c ==> ('A' <= c <= 'Z' || c == '\U{0130}' || c == '\U{212A}')
  {
    if 'A' <= c <= 'Z' then (c as int + 32) as char
    else if c == '\U{0130}' then 'i'
    else if c == '\U{212A}' then 'k'
    else c
  }

  function Lower(s: string): (r: string)
    ensures |r| == |s|
    ensures forall i | 0 <= i < |s| :: r[i] == LowerChar(s[i])
  {
    seq(|s|, i requires 0 <= i < |s| => LowerChar(s[i]))
  }

  /** Lower-casing is idempotent. */
  lemma LowerIdempotent(s: string)
    ensures Lower(Lower(s)) == Lower(s)
  {
  }

  // ---------------------------------------------------------------------------
  // strings.Split(s, sep) for a one-character separator, and its inverse
  // ---------------------------------------------------------------------------

  /** The pieces between separators, in order; there is always at least one piece
      (Split("", sep) == [""], as in Go). */
  function Split(s: string, sep: char): (r: seq<string>)
    ensures |r| >= 1
    ensures forall i | 0 <= i < |r| :: sep !in r[i]
    ensures Join(r, sep) == s
    decreases |s|
  {
    if s == [] then [[]]
    else
      var rest := Split(s[1..], sep);
      if s[0] == sep then [[]] + rest
      else [[s[0]] + rest[0]] + rest[1..]
  }

  /** strings.Join(gs, string(sep)). */
  function Join(gs: seq<string>, sep: char): string
    requires |gs| >= 1
    decreases |gs|
  {
    if |gs| == 1 then gs[0] else gs[0] + [sep] + Join(gs[1..], sep)
  }

  /** Splitting the joined pieces gives them back, provided no piece holds the separator:
      with Split's own Join(Split(s)) == s, Split and Join are mutual inverses. */
  lemma {:induction false} SplitJoin(gs: seq<string>, sep: char)
    requires |gs| >= 1
    requires forall i | 0 <= i < |gs| :: sep !in gs[i]
    ensures Split(Join(gs, sep), sep) == gs
    decreases |gs|, |gs[0]|
  {
    if |gs| == 1 {
      SplitPiece(gs[0], sep);
    } else if gs[0] == [] {
      var s := Join(gs, sep);
      assert s == [sep] + Join(gs[1..], sep);
      assert s[1..] == Join(gs[1..], sep);
      SplitJoin(gs[1..], sep);
    } else {
      var s := Join(gs, sep);
      var gs' := [gs[0][1..]] + gs[1..];
      assert gs'[1..] == gs[1..];
      assert Join(gs', sep) == gs[0][1..] + [sep] + Join(gs[1..], sep);
      assert s[1..] == Join(gs', sep);
      assert gs[0][0] in gs[0];
      SplitJoin(gs', sep);
      assert gs[0] == [gs[0][0]] + gs[0][1..];
      assert gs == [gs[0]] + gs[1..];
    }
  }

  /** Text without the separator is a single piece. */
  lemma {:induction false} SplitPiece(g: string, sep: char)
    requires sep !in g
    ensures Split(g, sep) == [g]
    decreases |g|
  {
    if g != [] {
      assert g[0] in g;
      SplitPiece(g[1..], sep);
    }
  }
}
