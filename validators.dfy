/** app/utils/validators.py, first half: normalize_text and the three input
    validators. */
module Validators {
  import opened Wrappers
  import opened Text

  // ---------------------------------------------------------------------------
  // normalize_text

  /** The characters the character class [a-z0-9] accepts. */
  predicate IsWordChar(c: char) {
    ('a' <= c <= 'z') || ('0' <= c <= '9')
  }

  /** encode('ASCII', 'ignore'): every character outside ASCII is dropped. The NFKD
      decomposition that precedes it is not modelled, so a precomposed accented letter
      is dropped whole here, where the source keeps its base letter. On input that is
      already decomposed (a base letter followed by a combining mark) the two agree:
      only the mark is dropped. */
  function AsciiOnly(s: string): (r: string)
    ensures forall i :: 0 <= i < |r| ==> r[i] < '\U{80}'
    ensures (forall i :: 0 <= i < |s| ==> s[i] < '\U{80}') ==> r == s
  {
    if s == [] then []
    else (if s[0] < '\U{80}' then [s[0]] else []) + AsciiOnly(s[1..])
  }

  /** Drop the maximal run of characters outside [a-z0-9] at the front of s. */
  function SkipRun(s: string): (r: string)
    ensures |r| <= |s|
    ensures r == s[|s| - |r|..]
    ensures forall i :: 0 <= i < |s| - |r| ==> !IsWordChar(s[i])
    ensures r != [] ==> IsWordChar(r[0])
  {
    if s == [] || IsWordChar(s[0]) then s else SkipRun(s[1..])
  }

  /** Only [a-z0-9] and spaces, and never two spaces in a row. */
  predicate Spaced(s: string) {
    && (forall i :: 0 <= i < |s| ==> IsWordChar(s[i]) || s[i] == ' ')
    && (forall i :: 0 <= i < |s| - 1 ==> !(s[i] == ' ' && s[i + 1] == ' '))
  }

  /** re.sub(r'[^a-z0-9]+', ' ', s): each maximal run of other characters becomes one space. */
  function ReplaceRuns(s: string): (r: string)
    ensures Spaced(r)
    ensures r == [] <==> s == []
    ensures s != [] && IsWordChar(s[0]) ==> r[0] == s[0]
    ensures s != [] && !IsWordChar(s[0]) ==> r[0] == ' '
    decreases |s|
  {
    if s == [] then []
    else if IsWordChar(s[0]) then [s[0]] + ReplaceRuns(s[1..])
    else
      var t := SkipRun(s[1..]);
      var u := ReplaceRuns(t);
      assert u != [] ==> IsWordChar(u[0]);
      [' '] + u
  }

  /** re.sub(r'\s+', ' ', s): each maximal run of whitespace becomes one space. */
  function SquashSpaces(s: string): string
    decreases |s|
  {
    if s == [] then []
    else if !IsSpace(s[0]) then [s[0]] + SquashSpaces(s[1..])
    else [' '] + SquashSpaces(s[1..][LeadingSpaces(s[1..])..])
  }

  /** normalize_text for an input already decomposed by NFKD. */
  function Normalize(s: string): string {
    Strip(SquashSpaces(ReplaceRuns(Lower(AsciiOnly(s)))))
  }

  /** The shape of every normalized string: lower-case letters and digits separated by
      single spaces, with no space at either end. */
  predicate Canonical(s: string) {
    Spaced(s) && (s != [] ==> s[0] != ' ' && s[|s| - 1] != ' ')
  }

  /** The letters and digits of s, in order. */
  function WordChars(s: string): string {
    if s == [] then [] else (if IsWordChar(s[0]) then [s[0]] else []) + WordChars(s[1..])
  }

  lemma {:induction false} WordCharsAppend(a: string, b: string)
    ensures WordChars(a + b) == WordChars(a) + WordChars(b)
  {
    if a != [] {
      assert (a + b)[0] == a[0] && (a + b)[1..] == a[1..] + b;
      WordCharsAppend(a[1..], b);
    } else {
      assert a + b == b;
    }
  }

  lemma {:induction false} WordCharsNone(s: string)
    requires forall i :: 0 <= i < |s| ==> !IsWordChar(s[i])
    ensures WordChars(s) == []
  {
    if s != [] { WordCharsNone(s[1..]); }
  }

  lemma {:induction false} SquashSpacedIdentity(s: string)
    requires Spaced(s)
    ensures SquashSpaces(s) == s
    decreases |s|
  {
    if s != [] {
      assert Spaced(s[1..]);
      SquashSpacedIdentity(s[1..]);
      if IsSpace(s[0]) {
        assert s[0] == ' ';
        assert s[1..] != [] ==> !IsSpace(s[1..][0]);
        assert LeadingSpaces(s[1..]) == 0;
        assert s[1..][0..] == s[1..];
      }
    }
  }

  lemma {:induction false} ReplaceRunsSpacedIdentity(s: string)
    requires Spaced(s)
    ensures ReplaceRuns(s) == s
    decreases |s|
  {
    if s != [] {
      assert Spaced(s[1..]);
      ReplaceRunsSpacedIdentity(s[1..]);
      if !IsWordChar(s[0]) {
        assert SkipRun(s[1..]) == s[1..];
      }
    }
  }

  lemma {:induction false} ReplaceRunsWordChars(s: string)
    ensures WordChars(ReplaceRuns(s)) == WordChars(s)
    decreases |s|
  {
    if s != [] {
      if IsWordChar(s[0]) {
        ReplaceRunsWordChars(s[1..]);
        assert ([s[0]] + ReplaceRuns(s[1..]))[1..] == ReplaceRuns(s[1..]);
      } else {
        var rest := s[1..];
        var t := SkipRun(rest);
        ReplaceRunsWordChars(t);
        assert ([' '] + ReplaceRuns(t))[1..] == ReplaceRuns(t);
        assert rest == rest[..|rest| - |t|] + t;
        WordCharsAppend(rest[..|rest| - |t|], t);
        WordCharsNone(rest[..|rest| - |t|]);
      }
    }
  }

  lemma StripSpaced(s: string)
    requires Spaced(s)
    ensures Canonical(Strip(s))
  {
    var r := Strip(s);
    assert r == s[LeadingSpaces(s)..StripStop(s)];
    assert forall i :: 0 <= i < |r| ==> r[i] == s[LeadingSpaces(s) + i];
  }

  /** normalize_text always yields a canonical string. */
  lemma NormalizeCanonical(s: string)
    ensures Canonical(Normalize(s))
  {
    var u := ReplaceRuns(Lower(AsciiOnly(s)));
    SquashSpacedIdentity(u);
    StripSpaced(u);
  }

  /** normalize_text keeps exactly the letters and digits of the lower-cased ASCII
      input, in order; everything else only ever becomes a separating space. */
  lemma NormalizeWordChars(s: string)
    ensures WordChars(Normalize(s)) == WordChars(Lower(AsciiOnly(s)))
  {
    var l := Lower(AsciiOnly(s));
    var u := ReplaceRuns(l);
    SquashSpacedIdentity(u);
    ReplaceRunsWordChars(l);
    StripWordChars(u);
  }

  /** Whitespace holds no letter or digit. */
  lemma BlankNoWordChars(s: string)
    requires IsBlank(s)
    ensures forall i :: 0 <= i < |s| ==> !IsWordChar(s[i])
  {
  }

  /** Whitespace around m adds nothing to WordChars. */
  lemma WordCharsAround(p: string, m: string, q: string)
    requires IsBlank(p) && IsBlank(q)
    ensures WordChars(p + m + q) == WordChars(m)
  {
    BlankNoWordChars(p);
    BlankNoWordChars(q);
    WordCharsNone(p);
    WordCharsNone(q);
    WordCharsAppend(p + m, q);
    WordCharsAppend(p, m);
  }

  /** strip() removes only whitespace, never a letter or digit. */
  lemma StripWordChars(u: string)
    ensures WordChars(Strip(u)) == WordChars(u)
  {
    var a, b := LeadingSpaces(u), StripStop(u);
    var p, m, q := u[..a], u[a..b], u[b..];
    assert u == p + m + q;
    assert IsBlank(p) by {
      forall i | 0 <= i < |p| ensures IsSpace(p[i]) { assert p[i] == u[i]; }
    }
    assert IsBlank(q) by {
      forall i | 0 <= i < |q| ensures IsSpace(q[i]) { assert q[i] == u[b + i]; }
    }
    WordCharsAround(p, m, q);
  }

  lemma AsciiLowerFixSpaced(s: string)
    requires Spaced(s)
    ensures Lower(AsciiOnly(s)) == s
  {
    assert forall i :: 0 <= i < |s| ==> s[i] < '\U{80}';
    assert AsciiOnly(s) == s;
    assert forall i :: 0 <= i < |s| ==> LowerChar(s[i]) == s[i];
  }

  lemma StripFixCanonical(s: string)
    requires Canonical(s)
    ensures Strip(s) == s
  {
    assert s != [] ==> !IsSpace(s[0]) && !IsSpace(s[|s| - 1]);
    assert LeadingSpaces(s) == 0;
    assert StripStop(s) == |s|;
  }

  /** A canonical string is left unchanged by normalize_text. */
  lemma NormalizeFixesCanonical(s: string)
    requires Canonical(s)
    ensures Normalize(s) == s
  {
    AsciiLowerFixSpaced(s);
    ReplaceRunsSpacedIdentity(s);
    SquashSpacedIdentity(s);
    StripFixCanonical(s);
  }

  /** normalize_text is idempotent, and its fixed points are exactly the canonical strings. */
  lemma NormalizeIdempotent(s: string)
    ensures Normalize(Normalize(s)) == Normalize(s)
    ensures Normalize(s) == s <==> Canonical(s)
  {
    NormalizeCanonical(s);
    NormalizeFixesCanonical(Normalize(s));
    if Canonical(s) { NormalizeFixesCanonical(s); }
  }

  /** A canonical string without letters or digits is empty. */
  lemma CanonicalWithoutWordChars(s: string)
    requires Canonical(s)
    ensures WordChars(s) == [] <==> s == []
  {
    if s != [] {
      assert s == [s[0]] + s[1..];
      WordCharsAppend([s[0]], s[1..]);
    }
  }

  /** normalize_text yields "" exactly when the input has no ASCII letter or digit. */
  lemma NormalizeEmpty(s: string)
    ensures Normalize(s) == [] <==> WordChars(Lower(AsciiOnly(s))) == []
  {
    NormalizeCanonical(s);
    NormalizeWordChars(s);
    CanonicalWithoutWordChars(Normalize(s));
  }

  // ---------------------------------------------------------------------------
  // validate_float, validate_int, validate_text

  /** What validate_float and validate_int report, before rendering as a message. */
  datatype NumberError<N> = NotANumber | NotAnInteger | BelowMin(bound: N) | AboveMax(bound: N)

  datatype TextError = EmptyText | TooLong(maxLength: int)

  /** A number lies inside the optional bounds; None disables a bound. */
  predicate InRealBounds(v: real, minVal: Option<real>, maxVal: Option<real>) {
    (minVal.None? || v >= minVal.value) && (maxVal.None? || v <= maxVal.value)
  }

  predicate InIntBounds(v: int, minVal: Option<int>, maxVal: Option<int>) {
    (minVal.None? || v >= minVal.value) && (maxVal.None? || v <= maxVal.value)
  }

  /** validate_float(value_str, min_val, max_val). Python's float() is given as its
      outcome: None when it raises ValueError, else the parsed value. */
  function ValidateFloat(parsed: Option<real>, minVal: Option<real> := None, maxVal: Option<real> := None)
    : (r: Result<real, NumberError<real>>)
    ensures r.Success? <==> parsed.Some? && InRealBounds(parsed.value, minVal, maxVal)
    ensures r.Success? ==> r.value == parsed.value
    ensures parsed.None? ==> r == Failure(NotANumber)
    ensures parsed.Some? && minVal.Some? && parsed.value < minVal.value ==> r == Failure(BelowMin(minVal.value))
    ensures parsed.Some? && InRealBounds(parsed.value, minVal, None) && maxVal.Some? && parsed.value > maxVal.value ==>
              r == Failure(AboveMax(maxVal.value))
  {
    match parsed
    case None => Failure(NotANumber)
    case Some(value) =>
      if minVal.Some? && value < minVal.value then Failure(BelowMin(minVal.value))
      else if maxVal.Some? && value > maxVal.value then Failure(AboveMax(maxVal.value))
      else Success(value)
  }

  /** validate_int(value_str, min_val, max_val), with Python's int() given as its outcome. */
  function ValidateInt(parsed: Option<int>, minVal: Option<int> := None, maxVal: Option<int> := None)
    : (r: Result<int, NumberError<int>>)
    ensures r.Success? <==> parsed.Some? && InIntBounds(parsed.value, minVal, maxVal)
    ensures r.Success? ==> r.value == parsed.value
    ensures parsed.None? ==> r == Failure(NotAnInteger)
    ensures parsed.Some? && minVal.Some? && parsed.value < minVal.value ==> r == Failure(BelowMin(minVal.value))
    ensures parsed.Some? && InIntBounds(parsed.value, minVal, None) && maxVal.Some? && parsed.value > maxVal.value ==>
              r == Failure(AboveMax(maxVal.value))
  {
    match parsed
    case None => Failure(NotAnInteger)
    case Some(value) =>
      if minVal.Some? && value < minVal.value then Failure(BelowMin(minVal.value))
      else if maxVal.Some? && value > maxVal.value then Failure(AboveMax(maxVal.value))
      else Success(value)
  }

  /** The message the validators return; `show` renders a bound as Python's str() would. */
  function NumberMessage<N>(e: NumberError<N>, show: N -> string): string {
    match e
    case NotANumber => "Debe ser un número válido"
    case NotAnInteger => "Debe ser un número entero válido"
    case BelowMin(b) => "El valor debe ser mayor o igual a " + show(b)
    case AboveMax(b) => "El valor debe ser menor o igual a " + show(b)
  }

  /** validate_text(text, max_length). A max_length of 0 is falsy in Python and
      disables the length check, like None. */
  function ValidateText(text: string, maxLength: Option<int> := None): (r: Result<string, TextError>)
    ensures r == Failure(EmptyText) <==> IsBlank(text)
    ensures r.Success? <==> !IsBlank(text) && (maxLength.None? || maxLength.value == 0 || |Strip(text)| <= maxLength.value)
    ensures r.Success? ==> r.value == Strip(text) && r.value != [] && !IsSpace(r.value[0]) && !IsSpace(r.value[|r.value| - 1])
    ensures r.Failure? && !IsBlank(text) ==> r == Failure(TooLong(maxLength.value))
  {
    if IsBlank(text) then Failure(EmptyText)
    else
      var t := Strip(text);
      if maxLength.Some? && maxLength.value != 0 && |t| > maxLength.value then Failure(TooLong(maxLength.value))
      else Success(t)
  }

  function TextMessage(e: TextError, show: int -> string): string {
    match e
    case EmptyText => "El texto no puede estar vacío"
    case TooLong(m) => "El texto no puede exceder " + show(m) + " caracteres"
  }
}
