/** What interpolation does to configuration text, proved against the model in module
    Interpolation.

    The central theorem views a text as a sequence of pieces: plain text, and tokens
    `%%NAME%%` with a well-formed NAME. When the plain text holds no `%` and the
    variables' values hold none either, interpolating the rendered text gives exactly the
    rendering of the pieces with every token of a SET variable replaced by its value:
    all other text, and the tokens of unset variables, survive byte for byte. */
module InterpolationProofs {
  import opened GoText
  import opened Interpolation

  datatype Piece = Text(text: string) | Token(name: string)

  function RenderPiece(p: Piece): string
  {
    match p
    case Text(t) => t
    case Token(n) => Delimit(n)
  }

  /** The configuration text a sequence of pieces stands for. */
  function Render(ps: seq<Piece>): string
  {
    if ps == [] then [] else RenderPiece(ps[0]) + Render(ps[1..])
  }

  /** The names of the tokens, in order, duplicates included. */
  function Names(ps: seq<Piece>): seq<string>
  {
    if ps == [] then []
    else (if ps[0].Token? then [ps[0].name] else []) + Names(ps[1..])
  }

  /** A non-empty run of `[A-Z0-9_]` that starts with a letter. */
  predicate NameLike(t: string)
  {
    t != [] && IsUpper(t[0]) && forall i | 0 <= i < |t| :: IsNameChar(t[i])
  }

  /** Text that cannot take part in a token: no `%`, and not name-like (a name-like text
      between two tokens would itself read as `%%NAME%%` across their delimiters). */
  predicate Inert(t: string)
  {
    NoPercent(t) && !NameLike(t)
  }

  predicate WellFormedPiece(p: Piece)
  {
    match p
    case Text(t) => Inert(t)
    case Token(n) => IsEnvvarName(n)
  }

  predicate WellFormed(ps: seq<Piece>)
  {
    forall k | 0 <= k < |ps| :: WellFormedPiece(ps[k])
  }

  predicate InertValues(env: map<string, string>)
  {
    forall n | n in env :: Inert(env[n])
  }

  /** The intended meaning of interpolation, piece by piece: a token whose variable is set
      becomes the variable's value; everything else stays. */
  function Resolve(p: Piece, env: map<string, string>): Piece
  {
    if p.Token? && p.name in env then Text(env[p.name]) else p
  }

  function ResolveAll(ps: seq<Piece>, env: map<string, string>): (r: seq<Piece>)
    ensures |r| == |ps| && forall k | 0 <= k < |ps| :: r[k] == Resolve(ps[k], env)
  {
    seq(|ps|, k requires 0 <= k < |ps| => Resolve(ps[k], env))
  }

  /** Resolution restricted to the variables named in `names`. */
  function ResolveNamed(ps: seq<Piece>, env: map<string, string>, names: set<string>): (r: seq<Piece>)
    ensures |r| == |ps|
    ensures forall k | 0 <= k < |ps| ::
      r[k] == if ps[k].Token? && ps[k].name in names then Resolve(ps[k], env) else ps[k]
  {
    seq(|ps|, k requires 0 <= k < |ps| =>
      if ps[k].Token? && ps[k].name in names then Resolve(ps[k], env) else ps[k])
  }

  // ---------------------------------------------------------------------------
  // Scanning

  lemma RenderCons(ps: seq<Piece>)
    requires ps != []
    ensures Render(ps) == RenderPiece(ps[0]) + Render(ps[1..])
  {
  }

  lemma WellFormedTail(ps: seq<Piece>)
    requires ps != [] && WellFormed(ps)
    ensures WellFormedPiece(ps[0]) && WellFormed(ps[1..])
  {
    assert forall k | 0 <= k < |ps| - 1 :: ps[1..][k] == ps[k + 1];
  }

  /** The scan passes over text without `%` and finds nothing in it. */
  lemma {:induction false} CandidatesSkipText(t: string, r: string)
    requires NoPercent(t)
    ensures Candidates(t + r) == Candidates(r)
    decreases |t|
  {
    if t == [] {
      assert t + r == r;
    } else {
      var s := t + r;
      assert s[0] == t[0] && s[1..] == t[1..] + r;
      assert TokenAt(s) == None;
      CandidatesSkipText(t[1..], r);
    }
  }

  /** A well-formed token at the start is found, and the scan resumes right after it. */
  lemma CandidatesAfterToken(n: string, r: string)
    requires IsEnvvarName(n)
    ensures Candidates(Delimit(n) + r) == [n] + Candidates(r)
  {
    var s := Delimit(n) + r;
    assert s[..|Delimit(n)|] == Delimit(n);
    TokenAtFinds(s, n);
    assert s[|Delimit(n)|..] == r;
  }

  /** The scan of well-formed pieces finds exactly their tokens, in order. */
  lemma {:induction false} CandidatesOfRender(ps: seq<Piece>)
    requires WellFormed(ps)
    ensures Candidates(Render(ps)) == Names(ps)
    decreases |ps|
  {
    if ps != [] {
      WellFormedTail(ps);
      CandidatesOfRender(ps[1..]);
      match ps[0]
      case Text(t) =>
        CandidatesSkipText(t, Render(ps[1..]));
      case Token(n) =>
        CandidatesAfterToken(n, Render(ps[1..]));
    }
  }

  // ---------------------------------------------------------------------------
  // Replacing one variable

  /** What follows a token in a well-formed rendering can neither complete another
      token's literal `%%NAME%%` with the token's closing `%%`, nor begin with a lone `%`. */
  lemma {:induction false} RenderStartsSafely(ps: seq<Piece>, n: string)
    requires WellFormed(ps) && IsEnvvarName(n)
    ensures var r := Render(ps);
      !(|n| + 2 <= |r| && r[..|n| + 2] == n + "%%") && !(2 <= |r| && r[0] == '%' && r[1] != '%')
    decreases |ps|
  {
    if ps != [] {
      WellFormedTail(ps);
      var r := Render(ps);
      var rest := Render(ps[1..]);
      match ps[0]
      case Token(m) =>
        assert r == Delimit(m) + rest;
        assert r[0] == '%' && r[1] == '%';
      case Text(t) =>
        assert r == t + rest;
        if t == [] {
          RenderStartsSafely(ps[1..], n);
          assert r == rest;
        } else {
          assert r[0] == t[0] && r[0] != '%';
          if |n| + 2 <= |r| {
            var w := n + "%%";
            if |t| > |n| {
              assert r[|n|] == t[|n|] && w[|n|] == '%';
            } else if !IsUpper(t[0]) {
              assert r[0] == t[0] && w[0] == n[0];
            } else {
              var j :| 0 <= j < |t| && !IsNameChar(t[j]);
              assert r[j] == t[j] && w[j] == n[j];
            }
          }
        }
    }
  }

  /** Where the text does not start with the pattern, its first character is kept. */
  lemma ReplaceAllStep(s: string, p: string, v: string)
    requires p != [] && s != []
    requires !(|p| <= |s| && s[..|p|] == p)
    ensures ReplaceAll(s, p, v) == [s[0]] + ReplaceAll(s[1..], p, v)
  {
    if |s| < |p| {
      assert ReplaceAll(s[1..], p, v) == s[1..];
      assert [s[0]] + s[1..] == s;
    }
  }

  /** The tokens of two different names differ within the shorter one's length. */
  lemma OtherTokenDiffers(m: string, n: string, r: string)
    requires IsEnvvarName(m) && IsEnvvarName(n) && m != n
    ensures var s := Delimit(m) + r; !(|Delimit(n)| <= |s| && s[..|Delimit(n)|] == Delimit(n))
  {
    var p := Delimit(n);
    var s := Delimit(m) + r;
    if |p| <= |s| {
      if |m| == |n| {
        var i :| 0 <= i < |m| && m[i] != n[i];
        assert s[i + 2] == m[i] && p[i + 2] == n[i];
      } else if |m| < |n| {
        assert s[|m| + 2] == '%' && p[|m| + 2] == n[|m|];
      } else {
        assert s[|n| + 2] == m[|n|] && p[|n| + 2] == '%';
      }
    }
  }

  /** The closing delimiter of a token, followed by text that is safe for `n`, holds no
      occurrence of the token of `n` that starts within the delimiter. */
  lemma ReplaceAllPastClosing(n: string, r: string, v: string)
    requires IsEnvvarName(n)
    requires !(|n| + 2 <= |r| && r[..|n| + 2] == n + "%%")
    requires !(2 <= |r| && r[0] == '%' && r[1] != '%')
    ensures ReplaceAll("%%" + r, Delimit(n), v) == "%%" + ReplaceAll(r, Delimit(n), v)
  {
    var p := Delimit(n);
    var s3 := "%%" + r;
    var s4 := "%" + r;
    assert s3[1..] == s4 && s4[1..] == r;
    assert !(|p| <= |s3| && s3[..|p|] == p) by {
      if |p| <= |s3| {
        assert s3[2..|p|] == r[..|n| + 2];
        assert p[2..] == n + "%%";
      }
    }
    assert !(|p| <= |s4| && s4[..|p|] == p) by {
      if |p| <= |s4| {
        assert s4[1] == r[0] && s4[2] == r[1] && p[1] == '%' && p[2] == n[0];
      }
    }
    ReplaceAllStep(s3, p, v);
    ReplaceAllStep(s4, p, v);
  }

  /** The opening delimiter and name of a token of another variable hold no occurrence
      of the token of `n`. */
  lemma ReplaceAllPastOpening(m: string, n: string, r: string, v: string)
    requires IsEnvvarName(m) && IsEnvvarName(n) && m != n
    ensures ReplaceAll(Delimit(m) + r, Delimit(n), v) == "%%" + m + ReplaceAll("%%" + r, Delimit(n), v)
  {
    var p := Delimit(n);
    var u := "%%" + r;
    var s0 := Delimit(m) + r;
    var s1 := s0[1..];
    DelimitOpening(m, r);
    assert !(|p| <= |s1| && s1[..|p|] == p) by {
      if |p| <= |s1| {
        assert s1[1] == m[0] && p[1] == '%';
      }
    }
    ReplaceAllSkipsPrefix(m, u, p, v);
    ReplaceAllStep(s1, p, v);
    OtherTokenDiffers(m, n, r);
    ReplaceAllStep(s0, p, v);
    DoublePercentPrefix(m, ReplaceAll(u, p, v));
  }

  /** A token followed by more text opens with two `%` and the name. */
  lemma DelimitOpening(m: string, r: string)
    ensures var s := Delimit(m) + r;
      |s| >= 2 && s[0] == '%' && s[1] == '%' && s[1..][1..] == m + ("%%" + r)
  {
  }

  lemma DoublePercentPrefix(a: string, b: string)
    ensures ['%'] + (['%'] + (a + b)) == "%%" + a + b
  {
  }

  /** Replacing the token of `n` leaves a token of a different variable intact. */
  lemma ReplaceAllPastOtherToken(m: string, n: string, r: string, v: string)
    requires IsEnvvarName(m) && IsEnvvarName(n) && m != n
    requires !(|n| + 2 <= |r| && r[..|n| + 2] == n + "%%")
    requires !(2 <= |r| && r[0] == '%' && r[1] != '%')
    ensures ReplaceAll(Delimit(m) + r, Delimit(n), v) == Delimit(m) + ReplaceAll(r, Delimit(n), v)
  {
    ReplaceAllPastOpening(m, n, r, v);
    ReplaceAllPastClosing(n, r, v);
  }

  /** One iteration of the loop on a well-formed rendering: exactly the tokens of `n` are
      replaced. */
  lemma {:induction false} ReplaceAllOfRender(ps: seq<Piece>, n: string, env: map<string, string>)
    requires WellFormed(ps) && IsEnvvarName(n) && n in env
    ensures ReplaceAll(Render(ps), Delimit(n), env[n]) == Render(ResolveNamed(ps, env, {n}))
    decreases |ps|
  {
    var p := Delimit(n);
    var qs := ResolveNamed(ps, env, {n});
    if ps == [] {
      assert Render(ps) == [];
    } else {
      WellFormedTail(ps);
      ReplaceAllOfRender(ps[1..], n, env);
      assert qs[1..] == ResolveNamed(ps[1..], env, {n});
      var tail := Render(ResolveNamed(ps[1..], env, {n}));
      assert Render(qs) == RenderPiece(qs[0]) + tail;
      match ps[0]
      case Text(t) =>
        ReplaceAllSkipsPrefix(t, Render(ps[1..]), p, env[n]);
      case Token(m) =>
        if m == n {
          ReplaceAllAtOccurrence(Render(ps[1..]), p, env[n]);
        } else {
          RenderStartsSafely(ps[1..], n);
          ReplaceAllPastOtherToken(m, n, Render(ps[1..]), env[n]);
        }
    }
  }

  // ---------------------------------------------------------------------------
  // The whole loop

  /** The loop over any list of well-formed names resolves exactly the named variables. */
  lemma {:induction false} SubstituteAllOfRender(ps: seq<Piece>, names: seq<string>, env: map<string, string>)
    requires WellFormed(ps) && InertValues(env)
    requires forall k | 0 <= k < |names| :: IsEnvvarName(names[k])
    ensures SubstituteAll(Render(ps), names, env)
         == Render(ResolveNamed(ps, env, set x | x in names))
    decreases |names|
  {
    if names == [] {
      assert (set x | x in names) == {};
      assert ResolveNamed(ps, env, {}) == ps;
    } else {
      var n := names[0];
      var rest := names[1..];
      assert (set x | x in names) == (set x | x in rest) + {n};
      ResolveNamedTwice(ps, env, n, set x | x in rest);
      if n in env {
        ReplaceAllOfRender(ps, n, env);
        ResolveNamedWellFormed(ps, env, {n});
        SubstituteAllOfRender(ResolveNamed(ps, env, {n}), rest, env);
      } else {
        SubstituteAllOfRender(ps, rest, env);
      }
    }
  }

  /** Resolving one name and then others is resolving them all at once; resolving an
      unset name changes nothing. */
  lemma ResolveNamedTwice(ps: seq<Piece>, env: map<string, string>, n: string, names: set<string>)
    ensures ResolveNamed(ResolveNamed(ps, env, {n}), env, names) == ResolveNamed(ps, env, names + {n})
    ensures n !in env ==> ResolveNamed(ps, env, names) == ResolveNamed(ps, env, names + {n})
  {
  }

  /** Resolution with inert values keeps a sequence of pieces well formed. */
  lemma ResolveNamedWellFormed(ps: seq<Piece>, env: map<string, string>, names: set<string>)
    requires WellFormed(ps) && InertValues(env)
    ensures WellFormed(ResolveNamed(ps, env, names))
  {
    var qs := ResolveNamed(ps, env, names);
    forall k | 0 <= k < |qs| ensures WellFormedPiece(qs[k]) {
      assert WellFormedPiece(ps[k]);
    }
  }


  lemma {:induction false} NamesListTokens(ps: seq<Piece>, k: int)
    requires 0 <= k < |ps| && ps[k].Token?
    ensures ps[k].name in Names(ps)
    decreases |ps|
  {
    if k > 0 {
      NamesListTokens(ps[1..], k - 1);
    }
  }

  /** The theorem below, for an environment all of whose values are inert. */
  lemma InterpolateRenderedInertEnv(ps: seq<Piece>, env: map<string, string>)
    requires WellFormed(ps) && InertValues(env)
    ensures Interpolate(Render(ps), env) == Render(ResolveAll(ps, env))
  {
    CandidatesOfRender(ps);
    var names := Names(ps);
    SubstituteAllOfRender(ps, names, env);
    forall k | 0 <= k < |ps| && ps[k].Token?
      ensures ps[k].name in (set x | x in names)
    {
      NamesListTokens(ps, k);
    }
    assert ResolveNamed(ps, env, set x | x in names) == ResolveAll(ps, env);
  }

  /** The values of the variables in `names` that are set are inert; other variables may
      hold anything. */
  predicate InertFor(env: map<string, string>, names: seq<string>)
  {
    forall k | 0 <= k < |names| && names[k] in env :: Inert(env[names[k]])
  }

  /** The loop reads the environment only at the names it visits. */
  lemma {:induction false} SubstituteAllReadsNames(c: string, names: seq<string>,
                                                   env: map<string, string>, env': map<string, string>)
    requires forall k | 0 <= k < |names| ::
      (names[k] in env <==> names[k] in env') && (names[k] in env ==> env[names[k]] == env'[names[k]])
    ensures SubstituteAll(c, names, env) == SubstituteAll(c, names, env')
    decreases |names|
  {
    if names != [] {
      assert Substitute(c, names[0], env) == Substitute(c, names[0], env');
      assert forall k | 0 <= k < |names| - 1 :: names[1..][k] == names[k + 1];
      SubstituteAllReadsNames(Substitute(c, names[0], env), names[1..], env, env');
    }
  }

  /** Interpolation resolves every token of a set variable to its value and keeps
      everything else, byte for byte, provided the variables the text names hold inert
      values. */
  lemma InterpolateRendered(ps: seq<Piece>, env: map<string, string>)
    requires WellFormed(ps) && InertFor(env, Names(ps))
    ensures Interpolate(Render(ps), env) == Render(ResolveAll(ps, env))
  {
    var names := Names(ps);
    var env' := map n | n in env && n in names :: env[n];
    assert InertValues(env') by {
      forall n | n in env' ensures Inert(env'[n]) {
        var k :| 0 <= k < |names| && names[k] == n;
      }
    }
    InterpolateRenderedInertEnv(ps, env');
    CandidatesOfRender(ps);
    SubstituteAllReadsNames(Render(ps), names, env, env');
    forall k | 0 <= k < |ps| ensures Resolve(ps[k], env) == Resolve(ps[k], env') {
      if ps[k].Token? {
        NamesListTokens(ps, k);
      }
    }
    assert ResolveAll(ps, env) == ResolveAll(ps, env');
  }

  // ---------------------------------------------------------------------------
  // A single token, and text without tokens

  /** The scan over a text with one well-formed token and no other `%` finds that token. */
  lemma CandidatesOfSingleToken(pre: string, n: string, post: string)
    requires NoPercent(pre) && NoPercent(post) && IsEnvvarName(n)
    ensures Candidates(pre + Delimit(n) + post) == [n]
  {
    assert pre + Delimit(n) + post == pre + (Delimit(n) + post);
    CandidatesSkipText(pre, Delimit(n) + post);
    CandidatesAfterToken(n, post);
    CandidatesSkipText(post, []);
    assert post + [] == post;
  }

  /** Replacing the one token of such a text puts the value in its place. */
  lemma ReplaceSingleToken(pre: string, n: string, post: string, v: string)
    requires NoPercent(pre) && NoPercent(post) && IsEnvvarName(n)
    ensures ReplaceAll(pre + Delimit(n) + post, Delimit(n), v) == pre + v + post
  {
    var p := Delimit(n);
    assert pre + p + post == pre + (p + post);
    ReplaceAllSkipsPrefix(pre, p + post, p, v);
    ReplaceAllAtOccurrence(post, p, v);
    assert ReplaceAll(post, p, v) == post;
  }

  /** A text with one well-formed token and no other `%`: the token becomes the value of
      its variable when that is set, whatever the value holds, and stays verbatim when it
      is unset; the text around it is kept. */
  lemma InterpolateSingleToken(pre: string, n: string, post: string, env: map<string, string>)
    requires NoPercent(pre) && NoPercent(post) && IsEnvvarName(n)
    ensures Interpolate(pre + Delimit(n) + post, env)
         == pre + (if n in env then env[n] else Delimit(n)) + post
  {
    var s := pre + Delimit(n) + post;
    CandidatesOfSingleToken(pre, n, post);
    assert SubstituteAll(s, [n], env) == Substitute(s, n, env);
    if n in env {
      ReplaceSingleToken(pre, n, post, env[n]);
    }
  }

  /** After `%%` the scan needs a closing `%%`; text without `%` gives none. */
  lemma CandidatesSkipUnclosed(u: string)
    requires NoPercent(u)
    ensures Candidates("%%" + u) == Candidates(u)
  {
    var s := "%%" + u;
    if |s| >= 3 && IsUpper(s[2]) {
      var k := 1 + NameRun(s[3..]);
      assert k + 4 <= |s| ==> s[k + 2] == u[k] && u[k] != '%';
    }
    assert TokenAt(s) == None;
    assert s[1..] == "%" + u;
    assert TokenAt("%" + u) == None;
    assert ("%" + u)[1..] == u;
  }

  /** `%%` followed by a string that is not a well-formed name and then by `%` does not
      start a token. */
  lemma NoTokenAtNonName(x: string, tail: string)
    requires NoPercent(x) && !IsEnvvarName(x) && tail != [] && tail[0] == '%'
    ensures TokenAt("%%" + x + tail) == None
  {
    var s1 := "%%" + x + tail;
    if |x| > 0 && IsUpper(x[0]) {
      var k := 1 + NameRun(s1[3..]);
      assert forall i | 0 <= i < |x| - 1 :: s1[3..][i] == x[i + 1];
      assert s1[3..][|x| - 1] == '%';
      if k < |x| {
        assert s1[k + 2] == x[k];
      } else {
        forall i | 1 <= i < |x| ensures IsNameChar(x[i]) {
          assert s1[3..][i - 1] == x[i];
        }
      }
    }
  }

  /** The scan over `%%x%%post`, where x is not a well-formed name, finds nothing. */
  lemma CandidatesOfNonName(x: string, post: string)
    requires NoPercent(x) && NoPercent(post) && !IsEnvvarName(x)
    ensures Candidates("%%" + x + "%%" + post) == []
  {
    var tail := "%%" + post;
    var s2 := "%" + x + tail;
    NonNameLayout(x, post);
    CandidatesSkipUnclosed(post);
    CandidatesSkipText(post, []);
    NoTokenAtNonName(x, tail);
    assert TokenAt(s2) == None;
    if x != [] {
      CandidatesSkipText(x, tail);
    }
  }

  /** How `%%x%%post` falls apart, one character at a time. */
  lemma NonNameLayout(x: string, post: string)
    ensures var tail := "%%" + post;
      && "%%" + x + "%%" + post == "%%" + x + tail
      && ("%%" + x + tail)[1..] == "%" + x + tail
      && ("%" + x + tail)[1..] == x + tail
      && (x == [] ==> x + tail == tail && ("%" + x + tail)[2] == '%')
      && post + [] == post
  {
  }

  /** Text with exactly one `%%...%%` pair around a string that is not a well-formed
      name (too short, lower case, digit first) is never rewritten. */
  lemma InterpolateIgnoresNonName(pre: string, x: string, post: string, env: map<string, string>)
    requires NoPercent(pre) && NoPercent(x) && NoPercent(post) && !IsEnvvarName(x)
    ensures Interpolate(pre + "%%" + x + "%%" + post, env) == pre + "%%" + x + "%%" + post
  {
    var s1 := "%%" + x + "%%" + post;
    assert pre + "%%" + x + "%%" + post == pre + s1;
    CandidatesSkipText(pre, s1);
    CandidatesOfNonName(x, post);
  }

  /** The number of `%` signs in a text. */
  function Percents(s: string): nat
  {
    if s == [] then 0 else (if s[0] == '%' then 1 else 0) + Percents(s[1..])
  }

  lemma {:induction false} PercentsAppend(a: string, b: string)
    ensures Percents(a + b) == Percents(a) + Percents(b)
    decreases |a|
  {
    if a == [] {
      assert a + b == b;
    } else {
      assert (a + b)[1..] == a[1..] + b;
      PercentsAppend(a[1..], b);
    }
  }

  lemma {:induction false} PercentsOfNoPercent(t: string)
    requires NoPercent(t)
    ensures Percents(t) == 0
    decreases |t|
  {
    if t != [] {
      PercentsOfNoPercent(t[1..]);
    }
  }

  /** A token holds four `%` signs, so a text with fewer has no candidate. */
  lemma {:induction false} CandidatesNeedFourPercents(s: string)
    ensures Candidates(s) != [] ==> Percents(s) >= 4
    decreases |s|
  {
    if s != [] {
      match TokenAt(s)
      case Some(n) =>
        var d := Delimit(n);
        assert s == "%%" + n + ("%%" + s[|d|..]);
        PercentsAppend("%%" + n, "%%" + s[|d|..]);
        PercentsAppend("%%", n);
        PercentsAppend("%%", s[|d|..]);
      case None =>
        CandidatesNeedFourPercents(s[1..]);
    }
  }

  /** Text with fewer than four `%` signs is never rewritten. */
  lemma InterpolateFewPercents(s: string, env: map<string, string>)
    requires Percents(s) < 4
    ensures Interpolate(s, env) == s
  {
    CandidatesNeedFourPercents(s);
  }

  lemma {:induction false} PercentsAtMostLength(s: string)
    ensures Percents(s) <= |s|
    decreases |s|
  {
    if s != [] {
      PercentsAtMostLength(s[1..]);
    }
  }

  /** A name without `%`, between fewer than four delimiter characters in all, is never
      rewritten: `%NAME`, `%NAME%`, `%%NAME%` and the like. */
  lemma InterpolateUnpaired(lead: string, x: string, trail: string, env: map<string, string>)
    requires NoPercent(x) && |lead| + |trail| < 4
    ensures Interpolate(lead + x + trail, env) == lead + x + trail
  {
    PercentsOfNoPercent(x);
    PercentsAtMostLength(lead);
    PercentsAtMostLength(trail);
    PercentsAppend(lead + x, trail);
    PercentsAppend(lead, x);
    InterpolateFewPercents(lead + x + trail, env);
  }

  // ---------------------------------------------------------------------------
  // The configuration test cases

  /** The values of config_test.go with a lone `%` or an unclosed token, which must
      survive interpolation whatever the environment. */
  lemma UnpairedPercentsLeftVerbatim(env: map<string, string>)
    ensures Interpolate("%IS_NOT_AFFECTED", env) == "%IS_NOT_AFFECTED"
    ensures Interpolate("%IS_NOT_AFFECTED%", env) == "%IS_NOT_AFFECTED%"
    ensures Interpolate("%%IS_NOT_AFFECTED%", env) == "%%IS_NOT_AFFECTED%"
  {
    var name := "IS_NOT_AFFECTED";
    assert "%IS_NOT_AFFECTED" == "%" + name + "";
    InterpolateUnpaired("%", name, "", env);
    assert "%IS_NOT_AFFECTED%" == "%" + name + "%";
    InterpolateUnpaired("%", name, "%", env);
    assert "%%IS_NOT_AFFECTED%" == "%%" + name + "%";
    InterpolateUnpaired("%%", name, "%", env);
  }

  /** The values of config_test.go whose name is too short, which must survive
      interpolation whatever the environment. */
  lemma ShortNamesLeftVerbatim(env: map<string, string>)
    ensures Interpolate("asijwef" + "%%" + "TS1" + "%%" + "iwefwewef", env)
         == "asijwef" + "%%" + "TS1" + "%%" + "iwefwewef"
    ensures Interpolate("asijwef" + "%%" + "TS_1" + "%%" + "iwefwewef", env)
         == "asijwef" + "%%" + "TS_1" + "%%" + "iwefwewef"
  {
    InterpolateIgnoresNonName("asijwef", "TS1", "iwefwewef", env);
    InterpolateIgnoresNonName("asijwef", "TS_1", "iwefwewef", env);
  }

  /** The value of config_test.go whose name is led by a digit, which must survive
      interpolation whatever the environment. */
  lemma DigitLedNameLeftVerbatim(env: map<string, string>)
    ensures Interpolate("%%1MISSISSIPPI%%", env) == "%%1MISSISSIPPI%%"
  {
    var x := "1MISSISSIPPI";
    assert !IsUpper(x[0]);
    assert "%%1MISSISSIPPI%%" == "" + "%%" + x + "%%" + "";
    InterpolateIgnoresNonName("", x, "", env);
  }

  /** The value of config_test.go whose name is in lower case, which must survive
      interpolation whatever the environment. */
  lemma LowercaseNameLeftVerbatim(env: map<string, string>)
    ensures Interpolate("%%this_is_lowercase%%", env) == "%%this_is_lowercase%%"
  {
    var x := "this_is_lowercase";
    assert !IsUpper(x[0]);
    assert "%%this_is_lowercase%%" == "" + "%%" + x + "%%" + "";
    InterpolateIgnoresNonName("", x, "", env);
  }

  /** The prefix value of config_test.go is rewritten when PREFIX is set. */
  lemma PrefixInterpolated(env: map<string, string>)
    requires "PREFIX" in env
    ensures Interpolate("\"prefix\": \"%%PREFIX%%\",", env) == "\"prefix\": \"" + env["PREFIX"] + "\","
  {
    var prefix := "\"prefix\": \"";
    assert "\"prefix\": \"%%PREFIX%%\"," == prefix + Delimit("PREFIX") + "\",";
    InterpolateSingleToken(prefix, "PREFIX", "\",", env);
  }

  /** The collector interval of config_test.go is rewritten when COLLECTOR_INTERVAL is set. */
  lemma CollectorIntervalInterpolated(env: map<string, string>)
    requires "COLLECTOR_INTERVAL" in env
    ensures Interpolate("\"interval\": " + Delimit("COLLECTOR_INTERVAL"), env)
         == "\"interval\": " + env["COLLECTOR_INTERVAL"]
  {
    var name := "COLLECTOR_INTERVAL";
    var interval := "\"interval\": ";
    assert IsEnvvarName(name);
    InterpolateSingleToken(interval, name, "", env);
    assert interval + Delimit(name) + "" == interval + Delimit(name);
    assert interval + env[name] + "" == interval + env[name];
  }

  /** The well-formed token of config_test.go whose variable is unset is kept. */
  lemma UnsetVariableLeftVerbatim(env: map<string, string>)
    requires "IS_ALSO_NOT_AFFECTED_BECAUSE_NOT_SET" !in env
    ensures Interpolate(Delimit("IS_ALSO_NOT_AFFECTED_BECAUSE_NOT_SET"), env)
         == Delimit("IS_ALSO_NOT_AFFECTED_BECAUSE_NOT_SET")
  {
    var unset := "IS_ALSO_NOT_AFFECTED_BECAUSE_NOT_SET";
    assert IsEnvvarName(unset);
    InterpolateSingleToken("", unset, "", env);
    assert "" + Delimit(unset) + "" == Delimit(unset);
  }
}
