/** Environment-variable interpolation of raw configuration text
    (`interpolateEnvvarsIntoConfigRead` in config/config.go).

    The text is scanned once, left to right, for tokens `%%NAME%%` whose NAME matches
    `[A-Z][A-Z0-9_]{4,}`. Then, for each token found, in order and duplicates included,
    if NAME is set in the environment, every literal occurrence of `%%NAME%%` in the
    CURRENT text is replaced by the variable's value. The environment is a map from
    variable names to values; the file read that produces the text is left out. */
module Interpolation {
  import opened GoText

  predicate IsUpper(c: char)
  {
    'A' <= c <= 'Z'
  }

  /** One character of the class `[A-Z0-9_]`. */
  predicate IsNameChar(c: char)
  {
    IsUpper(c) || IsDigit(c) || c == '_'
  }

  /** The regular expression `[A-Z][A-Z0-9_]{4,}`, as a predicate on a whole name. */
  predicate IsEnvvarName(n: string)
  {
    |n| >= 5 && IsUpper(n[0]) && forall i | 1 <= i < |n| :: IsNameChar(n[i])
  }

  predicate NoPercent(t: string)
  {
    forall i | 0 <= i < |t| :: t[i] != '%'
  }

  /** The token that stands for a variable in configuration text. */
  function Delimit(name: string): (t: string)
    ensures |t| == |name| + 4 && t[0] == '%'
  {
    "%%" + name + "%%"
  }

  /** Length of the longest prefix of `s` made of name characters. */
  function NameRun(s: string): (k: nat)
    ensures k <= |s|
    ensures forall i | 0 <= i < k :: IsNameChar(s[i])
    ensures k < |s| ==> !IsNameChar(s[k])
  {
    if s == [] || !IsNameChar(s[0]) then 0 else 1 + NameRun(s[1..])
  }

  /** The name of the token that `s` starts with, if it starts with one. The repetition
      `{4,}` is greedy and its class excludes `%`, so the only candidate is the whole
      run of name characters after the leading `%%`. */
  function TokenAt(s: string): (r: Option<string>)
    ensures r.Some? ==> IsEnvvarName(r.value)
    ensures r.Some? ==> |Delimit(r.value)| <= |s| && s[..|Delimit(r.value)|] == Delimit(r.value)
  {
    if |s| >= 3 && s[0] == '%' && s[1] == '%' && IsUpper(s[2]) then
      var k := 1 + NameRun(s[3..]);
      if k >= 5 && k + 4 <= |s| && s[k + 2] == '%' && s[k + 3] == '%' then
        assert s[..k + 4] == Delimit(s[2..k + 2]);
        Some(s[2..k + 2])
      else None
    else None
  }

  /** Conversely, every token at the start of `s` is found, and its name is the one. */
  lemma TokenAtFinds(s: string, n: string)
    requires IsEnvvarName(n)
    requires |Delimit(n)| <= |s| && s[..|Delimit(n)|] == Delimit(n)
    ensures TokenAt(s) == Some(n)
  {
    var d := Delimit(n);
    assert forall i | 0 <= i < |n| :: d[i + 2] == n[i];
    assert forall i | 0 <= i < |d| :: s[i] == d[i];
    assert s[2..|n| + 2] == n;
    assert s[|n| + 2] == '%' && s[|n| + 3] == '%';
    assert forall i | 0 <= i < |n| - 1 :: s[3..][i] == n[i + 1];
    assert forall i | 0 <= i < |n| - 1 :: IsNameChar(s[3..][i]);
    assert !IsNameChar(s[3..][|n| - 1]);
    assert NameRun(s[3..]) == |n| - 1;
  }

  /** `regexp.FindAll`: the names of the leftmost, non-overlapping tokens of `s`, in
      order of appearance. After a token the scan resumes behind its closing `%%`. */
  function Candidates(s: string): (r: seq<string>)
    ensures forall k | 0 <= k < |r| :: IsEnvvarName(r[k])
    decreases |s|
  {
    if s == [] then []
    else match TokenAt(s)
      case Some(n) => [n] + Candidates(s[|Delimit(n)|..])
      case None => Candidates(s[1..])
  }

  /** One iteration of the rewriting loop: a set variable has all occurrences of its
      token replaced, literally, by its value; an unset one leaves the text alone. */
  function Substitute(c: string, name: string, env: map<string, string>): (r: string)
    ensures name !in env ==> r == c
    ensures NoPercent(c) ==> r == c
  {
    if name in env then ReplaceAll(c, Delimit(name), env[name]) else c
  }

  /** The rewriting loop over the remaining candidate names. */
  function SubstituteAll(c: string, names: seq<string>, env: map<string, string>): (r: string)
    ensures (forall k | 0 <= k < |names| :: names[k] !in env) ==> r == c
    ensures NoPercent(c) ==> r == c
    decreases |names|
  {
    if names == [] then c else SubstituteAll(Substitute(c, names[0], env), names[1..], env)
  }

  /** The interpolated configuration text. Text without `%`, or whose tokens all name
      unset variables, comes back unchanged. */
  function Interpolate(contents: string, env: map<string, string>): (r: string)
    ensures NoPercent(contents) ==> r == contents
    ensures (forall k | 0 <= k < |Candidates(contents)| :: Candidates(contents)[k] !in env) ==>
      r == contents
  {
    SubstituteAll(contents, Candidates(contents), env)
  }

  /** The source's loop: `c` is rebound once per token found. */
  method InterpolateEnvvarsIntoConfigRead(contents: string, env: map<string, string>)
    returns (c: string)
    ensures c == Interpolate(contents, env)
  {
    var matched := Candidates(contents);
    c := contents;
    for i := 0 to |matched|
      invariant SubstituteAll(c, matched[i..], env) == Interpolate(contents, env)
    {
      assert matched[i..][1..] == matched[i + 1..];
      var potentialEnvvar := matched[i];
      if potentialEnvvar in env {
        c := ReplaceAll(c, Delimit(potentialEnvvar), env[potentialEnvvar]);
      }
    }
  }
}
