/** The parts of Go's standard library that the configuration code leans on, stated as
    functions: literal replace-all (`strings.Replace(s, old, new, -1)` and
    `regexp.ReplaceAllLiteral` on a pattern without metacharacters) and base-10 integer
    parsing (`strconv.ParseInt(s, 10, 64)`) with its printing counterpart. */
module GoText {

  datatype Option<+T> = None | Some(value: T)

  // ---------------------------------------------------------------------------
  // Literal replace-all

  /** True iff `pat` occurs in `s` starting at index `i`. */
  predicate OccursAt(pat: string, s: string, i: int)
  {
    0 <= i && i + |pat| <= |s| && s[i..i + |pat|] == pat
  }

  /** Replaces every leftmost, non-overlapping occurrence of `pat` in `s` by `rep`,
      scanning left to right and resuming after each replaced occurrence. */
  function ReplaceAll(s: string, pat: string, rep: string): (r: string)
    requires pat != []
    ensures (forall i | 0 <= i < |s| :: s[i] != pat[0]) ==> r == s
    ensures rep == pat ==> r == s
    decreases |s|
  {
    if |s| < |pat| then s
    else if s[..|pat|] == pat then rep + ReplaceAll(s[|pat|..], pat, rep)
    else [s[0]] + ReplaceAll(s[1..], pat, rep)
  }

  /** A text in which the pattern never occurs is returned unchanged. */
  lemma {:induction false} ReplaceAllAbsent(s: string, pat: string, rep: string)
    requires pat != []
    requires forall i :: !OccursAt(pat, s, i)
    ensures ReplaceAll(s, pat, rep) == s
    decreases |s|
  {
    if |s| >= |pat| {
      assert !OccursAt(pat, s, 0);
      forall i ensures !OccursAt(pat, s[1..], i) {
        if OccursAt(pat, s[1..], i) {
          assert s[1..][i..i + |pat|] == s[i + 1..i + 1 + |pat|];
          assert OccursAt(pat, s, i + 1);
        }
      }
      ReplaceAllAbsent(s[1..], pat, rep);
      assert [s[0]] + s[1..] == s;
    }
  }

  /** A prefix that does not contain the first character of the pattern cannot hold
      the start of an occurrence, so it is copied through verbatim. */
  lemma {:induction false} ReplaceAllSkipsPrefix(t: string, r: string, pat: string, rep: string)
    requires pat != []
    requires forall i | 0 <= i < |t| :: t[i] != pat[0]
    ensures ReplaceAll(t + r, pat, rep) == t + ReplaceAll(r, pat, rep)
    decreases |t|
  {
    if t == [] {
      assert t + r == r;
    } else {
      var s := t + r;
      assert s[0] == t[0];
      if |s| < |pat| {
        assert ReplaceAll(s, pat, rep) == s;
        assert ReplaceAll(r, pat, rep) == r;
      } else {
        assert s[..|pat|][0] != pat[0];
        assert ReplaceAll(s, pat, rep) == [s[0]] + ReplaceAll(s[1..], pat, rep);
        assert s[1..] == t[1..] + r;
        ReplaceAllSkipsPrefix(t[1..], r, pat, rep);
        calc {
          ReplaceAll(s, pat, rep);
          [t[0]] + (t[1..] + ReplaceAll(r, pat, rep));
          ([t[0]] + t[1..]) + ReplaceAll(r, pat, rep);
          { assert [t[0]] + t[1..] == t; }
          t + ReplaceAll(r, pat, rep);
        }
      }
    }
  }

  /** A text that starts with the pattern has that occurrence replaced first. */
  lemma ReplaceAllAtOccurrence(r: string, pat: string, rep: string)
    requires pat != []
    ensures ReplaceAll(pat + r, pat, rep) == rep + ReplaceAll(r, pat, rep)
  {
    var s := pat + r;
    assert s[..|pat|] == pat && s[|pat|..] == r;
  }

  /** Replacing one character by another works character by character: the length is
      kept and exactly the positions holding `a` change, to `b`. */
  lemma {:induction false} ReplaceCharPointwise(s: string, a: char, b: char)
    ensures |ReplaceAll(s, [a], [b])| == |s|
    ensures forall i | 0 <= i < |s| ::
      ReplaceAll(s, [a], [b])[i] == (if s[i] == a then b else s[i])
    decreases |s|
  {
    if s != [] {
      ReplaceCharPointwise(s[1..], a, b);
      var tail := ReplaceAll(s[1..], [a], [b]);
      if s[..1] == [a] {
        assert ReplaceAll(s, [a], [b]) == [b] + tail;
      } else {
        assert ReplaceAll(s, [a], [b]) == [s[0]] + tail;
      }
    }
  }

  // ---------------------------------------------------------------------------
  // Decimal integers

  const MinInt64: int := -0x8000_0000_0000_0000
  const MaxInt64: int := 0x7FFF_FFFF_FFFF_FFFF

  predicate IsDigit(c: char)
  {
    '0' <= c <= '9'
  }

  predicate AllDigits(s: string)
  {
    forall i | 0 <= i < |s| :: IsDigit(s[i])
  }

  function DigitValue(c: char): nat
    requires IsDigit(c)
  {
    (c as int) - ('0' as int)
  }

  function DigitChar(d: nat): (c: char)
    requires d < 10
    ensures IsDigit(c) && DigitValue(c) == d
  {
    (('0' as int) + d) as char
  }

  /** The number a non-empty run of decimal digits denotes, most significant first. */
  function DecimalValue(ds: string): nat
    requires AllDigits(ds)
  {
    if ds == [] then 0
    else 10 * DecimalValue(ds[..|ds| - 1]) + DigitValue(ds[|ds| - 1])
  }

  /** The shortest decimal rendering of a natural number. */
  function FormatNat(n: nat): (s: string)
    ensures s != [] && AllDigits(s)
  {
    if n < 10 then [DigitChar(n)] else FormatNat(n / 10) + [DigitChar(n % 10)]
  }

  /** `strconv.FormatInt(n, 10)`: a minus sign for negative numbers, then the digits. */
  function FormatInt(n: int): (s: string)
    ensures s != [] && (s[0] == '-' <==> n < 0)
    ensures AllDigits(if n < 0 then s[1..] else s)
  {
    if n < 0 then "-" + FormatNat(-n) else FormatNat(n)
  }

  /** `strconv.ParseInt(s, 10, 64)`: an optional single sign, then at least one decimal
      digit and nothing else, denoting a value that fits in 64 signed bits. Anything
      else (empty text, a stray character, an underscore, a value out of range) is an
      error, modelled as `None`. */
  function ParseInt64(s: string): (r: Option<int>)
    ensures r.Some? ==> MinInt64 <= r.value <= MaxInt64
  {
    if s == [] then None
    else
      var neg := s[0] == '-';
      var ds := if s[0] == '+' || s[0] == '-' then s[1..] else s;
      if ds == [] || !AllDigits(ds) then None
      else
        var m: int := DecimalValue(ds);
        if neg then (if m <= -MinInt64 then Some(-m) else None)
        else (if m <= MaxInt64 then Some(m) else None)
  }

  lemma {:induction false} DecimalValueOfFormatNat(n: nat)
    ensures DecimalValue(FormatNat(n)) == n
  {
    if n >= 10 {
      var s := FormatNat(n);
      DecimalValueOfFormatNat(n / 10);
      assert s[..|s| - 1] == FormatNat(n / 10);
    }
  }

  /** Printing and then parsing an integer gives it back exactly when it fits in 64
      bits; a printed integer outside that range is rejected. */
  lemma ParseFormatRoundTrip(n: int)
    ensures ParseInt64(FormatInt(n)) == if MinInt64 <= n <= MaxInt64 then Some(n) else None
  {
    var s := FormatInt(n);
    if n < 0 {
      DecimalValueOfFormatNat(-n);
      assert s[1..] == FormatNat(-n);
    } else {
      DecimalValueOfFormatNat(n);
      assert s[0] != '+' && s[0] != '-';
    }
  }

  /** Any character other than a digit, except a sign in the first position, makes the
      text unparseable. */
  lemma ParseRejectsNonDigit(s: string, i: int)
    requires 0 <= i < |s| && !IsDigit(s[i])
    requires i == 0 ==> s[0] != '+' && s[0] != '-'
    ensures ParseInt64(s) == None
  {
    var ds := if s[0] == '+' || s[0] == '-' then s[1..] else s;
    if s[0] == '+' || s[0] == '-' {
      assert ds[i - 1] == s[i];
    } else {
      assert ds[i] == s[i];
    }
  }

  /** A sign with no digits after it is not a number. */
  lemma ParseRejectsBareSign(s: string)
    requires s == "+" || s == "-"
    ensures ParseInt64(s) == None
  {
    assert s[1..] == [];
  }
}
