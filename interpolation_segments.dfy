/** Interpolation of configuration text laid out in lines.

    A character that is neither `%` nor a name character (a newline, a quote, a comma)
    can be neither part of a token nor the start of one, and a token never contains it.
    So the scan and every replacement of the rewriting loop act on the two sides of such
    a separator independently. A text made of lines, each holding at most one token
    and no other `%`, or no token at all, is therefore interpolated line by line, whatever
    stray `%` signs and malformed tokens the other lines hold. */
module InterpolationSegments {
  import opened GoText
  import opened Interpolation
  import opened InterpolationProofs

  /** A character that cannot be part of a token. */
  predicate IsSeparator(c: char)
  {
    c != '%' && !IsNameChar(c)
  }

  /** Text in which the scan finds a token at no position. */
  predicate TokenFree(t: string)
  {
    forall i | 0 <= i <= |t| :: TokenAt(t[i..]).None?
  }

  // ---------------------------------------------------------------------------
  // Splitting at a separator

  lemma {:induction false} NameRunStopsAtSeparator(u: string, c: char, y: string)
    requires IsSeparator(c)
    ensures NameRun(u + [c] + y) == NameRun(u)
    decreases |u|
  {
    var s := u + [c] + y;
    if u == [] {
      assert s[0] == c;
    } else {
      assert s[0] == u[0];
      assert s[1..] == u[1..] + [c] + y;
      NameRunStopsAtSeparator(u[1..], c, y);
    }
  }

  /** Whether a token starts at the beginning of `x` does not depend on what follows a
      separator after `x`. */
  lemma TokenAtBeforeSeparator(x: string, c: char, y: string)
    requires IsSeparator(c)
    ensures TokenAt(x + [c] + y) == TokenAt(x)
  {
    var s := x + [c] + y;
    assert forall i | 0 <= i < |x| :: s[i] == x[i];
    assert s[|x|] == c;
    if |x| >= 3 && x[0] == '%' && x[1] == '%' && IsUpper(x[2]) {
      assert s[3..] == x[3..] + [c] + y;
      NameRunStopsAtSeparator(x[3..], c, y);
      var k := 1 + NameRun(x[3..]);
      assert k + 2 <= |x|;
      assert s[2..k + 2] == x[2..k + 2];
    }
  }

  /** The scan finds the tokens on each side of a separator, and nothing else. */
  lemma {:induction false} CandidatesAcrossSeparator(x: string, c: char, y: string)
    requires IsSeparator(c)
    ensures Candidates(x + [c] + y) == Candidates(x) + Candidates(y)
    decreases |x|
  {
    var s := x + [c] + y;
    TokenAtBeforeSeparator(x, c, y);
    if x == [] {
      assert s[1..] == y;
    } else {
      match TokenAt(x)
      case Some(n) =>
        var d := |Delimit(n)|;
        assert s[d..] == x[d..] + [c] + y;
        CandidatesAcrossSeparator(x[d..], c, y);
      case None =>
        assert s[1..] == x[1..] + [c] + y;
        CandidatesAcrossSeparator(x[1..], c, y);
    }
  }

  /** A pattern that does not contain the separator is replaced on each side of it. */
  lemma {:induction false} ReplaceAllAcrossSeparator(x: string, c: char, y: string, pat: string, rep: string)
    requires pat != [] && forall i | 0 <= i < |pat| :: pat[i] != c
    ensures ReplaceAll(x + [c] + y, pat, rep) == ReplaceAll(x, pat, rep) + [c] + ReplaceAll(y, pat, rep)
    decreases |x|
  {
    var s := x + [c] + y;
    if x == [] {
      assert s == [c] + y;
      ReplaceAllSkipsPrefix([c], y, pat, rep);
    } else {
      ReplaceAllAcrossSeparatorStep(x, c, y, pat, rep);
      if |s| >= |pat| {
        var ry := ReplaceAll(y, pat, rep);
        if s[..|pat|] == pat {
          ReplaceAllAcrossSeparator(x[|pat|..], c, y, pat, rep);
          AppendRegroup(rep, ReplaceAll(x[|pat|..], pat, rep), c, ry);
        } else {
          ReplaceAllAcrossSeparator(x[1..], c, y, pat, rep);
          AppendRegroup([x[0]], ReplaceAll(x[1..], pat, rep), c, ry);
        }
      }
    }
  }

  lemma AppendRegroup(a: string, b: string, c: char, d: string)
    ensures a + (b + [c] + d) == (a + b) + [c] + d
  {
  }

  /** One step of the scan over `x`, separator and `y`, with `x` not empty. */
  lemma ReplaceAllAcrossSeparatorStep(x: string, c: char, y: string, pat: string, rep: string)
    requires pat != [] && forall i | 0 <= i < |pat| :: pat[i] != c
    requires x != []
    ensures var s := x + [c] + y;
      if |s| < |pat| then
        ReplaceAll(s, pat, rep) == ReplaceAll(x, pat, rep) + [c] + ReplaceAll(y, pat, rep)
      else if s[..|pat|] == pat then
        |pat| <= |x| && s[|pat|..] == x[|pat|..] + [c] + y &&
        ReplaceAll(s, pat, rep) == rep + ReplaceAll(s[|pat|..], pat, rep) &&
        ReplaceAll(x, pat, rep) == rep + ReplaceAll(x[|pat|..], pat, rep)
      else
        s[1..] == x[1..] + [c] + y &&
        ReplaceAll(s, pat, rep) == [x[0]] + ReplaceAll(s[1..], pat, rep) &&
        ReplaceAll(x, pat, rep) == [x[0]] + ReplaceAll(x[1..], pat, rep)
  {
    var s := x + [c] + y;
    assert s[|x|] == c && s[0] == x[0];
    assert |pat| > |x| ==> pat[|x|] != c;
    if |s| < |pat| {
      assert ReplaceAll(x, pat, rep) == x && ReplaceAll(y, pat, rep) == y;
    } else if s[..|pat|] == pat {
      assert forall i | 0 <= i < |pat| :: s[i] == pat[i];
      assert |pat| <= |x|;
      assert x[..|pat|] == s[..|pat|];
      assert s[|pat|..] == x[|pat|..] + [c] + y;
    } else {
      assert s[1..] == x[1..] + [c] + y;
      assert |x| >= |pat| ==> x[..|pat|] == s[..|pat|];
      assert |x| < |pat| ==> ReplaceAll(x[1..], pat, rep) == x[1..];
      assert [x[0]] + x[1..] == x;
    }
  }

  /** A token is made of `%` and name characters only. */
  lemma DelimitChars(n: string)
    requires IsEnvvarName(n)
    ensures forall i | 0 <= i < |Delimit(n)| :: Delimit(n)[i] == '%' || IsNameChar(Delimit(n)[i])
  {
    var d := Delimit(n);
    assert forall i | 2 <= i < |n| + 2 :: d[i] == n[i - 2];
  }

  /** The rewriting loop acts on each side of a separator independently, whatever the
      values it substitutes hold. */
  lemma {:induction false} SubstituteAllAcrossSeparator(x: string, c: char, y: string,
                                                        names: seq<string>, env: map<string, string>)
    requires IsSeparator(c)
    requires forall k | 0 <= k < |names| :: IsEnvvarName(names[k])
    ensures SubstituteAll(x + [c] + y, names, env)
         == SubstituteAll(x, names, env) + [c] + SubstituteAll(y, names, env)
    decreases |names|
  {
    if names != [] {
      var n := names[0];
      if n in env {
        DelimitChars(n);
        ReplaceAllAcrossSeparator(x, c, y, Delimit(n), env[n]);
      }
      assert forall k | 0 <= k < |names| - 1 :: names[1..][k] == names[k + 1];
      SubstituteAllAcrossSeparator(Substitute(x, n, env), c, Substitute(y, n, env), names[1..], env);
    }
  }

  // ---------------------------------------------------------------------------
  // Text without tokens

  /** A token starts with `%`. */
  lemma TokenAtStartsWithPercent(s: string)
    ensures TokenAt(s).Some? ==> s[0] == '%'
  {
    if TokenAt(s).Some? {
      var d := Delimit(TokenAt(s).value);
      assert s[..|d|][0] == d[0];
    }
  }

  /** A token holds four `%` signs. */
  lemma TokenAtNeedsFourPercents(s: string)
    ensures TokenAt(s).Some? ==> Percents(s) >= 4
  {
    CandidatesNeedFourPercents(s);
  }

  lemma PercentsOfSuffix(s: string, i: int)
    requires 0 <= i <= |s|
    ensures Percents(s[i..]) <= Percents(s)
  {
    assert s == s[..i] + s[i..];
    PercentsAppend(s[..i], s[i..]);
  }

  /** Text without `%` holds no token. */
  lemma TokenFreeOfNoPercent(t: string)
    requires NoPercent(t)
    ensures TokenFree(t)
  {
    forall i | 0 <= i <= |t| ensures TokenAt(t[i..]).None? {
      TokenAtStartsWithPercent(t[i..]);
    }
  }

  /** Text with fewer than four `%` signs holds no token. */
  lemma TokenFreeOfFewPercents(t: string)
    requires Percents(t) < 4
    ensures TokenFree(t)
  {
    forall i | 0 <= i <= |t| ensures TokenAt(t[i..]).None? {
      PercentsOfSuffix(t, i);
      TokenAtNeedsFourPercents(t[i..]);
    }
  }

  /** A text whose only token-like part is `%%x%%` with x not a well-formed name holds no
      token: `asijwef%%TS1%%iwefwewef`, `%%1MISSISSIPPI%%` and the like. */
  lemma TokenFreeOfNonName(pre: string, x: string, post: string)
    requires NoPercent(pre) && NoPercent(x) && NoPercent(post) && !IsEnvvarName(x)
    ensures TokenFree(pre + "%%" + x + "%%" + post)
  {
    var t := pre + "%%" + x + "%%" + post;
    var a := |pre|;
    assert t[a..] == "%%" + x + ("%%" + post);
    NoTokenAtNonName(x, "%%" + post);
    var rest := t[a + 1..];
    assert rest == ("%" + x) + "%%" + post;
    PercentsAppend("%" + x + "%%", post);
    PercentsAppend("%" + x, "%%");
    PercentsAppend("%", x);
    PercentsOfNoPercent(x);
    PercentsOfNoPercent(post);
    forall i | 0 <= i <= |t| ensures TokenAt(t[i..]).None? {
      if i < a {
        assert t[i] == pre[i];
        TokenAtStartsWithPercent(t[i..]);
      } else if i > a {
        PercentsOfSuffix(rest, i - a - 1);
        assert rest[i - a - 1..] == t[i..];
        TokenAtNeedsFourPercents(t[i..]);
      }
    }
  }

  /** A name between fewer than four `%` signs in all holds no token: `%IS_NOT_AFFECTED`,
      `%IS_NOT_AFFECTED%`, `%%IS_NOT_AFFECTED%` and the like. */
  lemma TokenFreeOfUnpaired(pre: string, lead: string, x: string, trail: string, post: string)
    requires NoPercent(pre) && NoPercent(x) && NoPercent(post) && |lead| + |trail| < 4
    ensures TokenFree(pre + lead + x + trail + post)
  {
    PercentsOfNoPercent(pre);
    PercentsOfNoPercent(x);
    PercentsOfNoPercent(post);
    PercentsAtMostLength(lead);
    PercentsAtMostLength(trail);
    PercentsAppend(pre + lead + x + trail, post);
    PercentsAppend(pre + lead + x, trail);
    PercentsAppend(pre + lead, x);
    PercentsAppend(pre, lead);
    TokenFreeOfFewPercents(pre + lead + x + trail + post);
  }

  /** A well-formed token occurs in a text only where the scan would read it. */
  lemma OccurrenceIsToken(t: string, n: string, i: int)
    requires IsEnvvarName(n)
    ensures OccursAt(Delimit(n), t, i) ==> TokenAt(t[i..]) == Some(n)
  {
    if OccursAt(Delimit(n), t, i) {
      var d := Delimit(n);
      assert t[i..][..|d|] == t[i..i + |d|];
      TokenAtFinds(t[i..], n);
    }
  }

  /** Token-free text is left alone by the rewriting loop. */
  lemma {:induction false} SubstituteAllOfTokenFree(t: string, names: seq<string>, env: map<string, string>)
    requires TokenFree(t)
    requires forall k | 0 <= k < |names| :: IsEnvvarName(names[k])
    ensures SubstituteAll(t, names, env) == t
    decreases |names|
  {
    if names != [] {
      var n := names[0];
      if n in env {
        forall i ensures !OccursAt(Delimit(n), t, i) {
          OccurrenceIsToken(t, n, i);
        }
        ReplaceAllAbsent(t, Delimit(n), env[n]);
      }
      assert forall k | 0 <= k < |names| - 1 :: names[1..][k] == names[k + 1];
      SubstituteAllOfTokenFree(t, names[1..], env);
    }
  }

  /** The scan finds nothing in token-free text. */
  lemma {:induction false} CandidatesOfTokenFree(t: string)
    requires TokenFree(t)
    ensures Candidates(t) == []
    decreases |t|
  {
    if t != [] {
      assert TokenAt(t[0..]).None?;
      assert t[0..] == t;
      assert TokenFree(t[1..]) by {
        forall i | 0 <= i <= |t| - 1 ensures TokenAt(t[1..][i..]).None? {
          assert t[1..][i..] == t[i + 1..];
        }
      }
      CandidatesOfTokenFree(t[1..]);
    }
  }

  // ---------------------------------------------------------------------------
  // Text with one token

  /** In text with one token and no other `%`, the only token that occurs is that one. */
  lemma OnlyOwnTokenOccurs(pre: string, n: string, post: string, m: string, i: int)
    requires NoPercent(pre) && NoPercent(post) && IsEnvvarName(n) && IsEnvvarName(m)
    ensures OccursAt(Delimit(m), pre + Delimit(n) + post, i) ==> m == n
  {
    var t := pre + Delimit(n) + post;
    var a := |pre|;
    var b := a + |n| + 2;
    assert forall j | 0 <= j < a :: t[j] == pre[j];
    assert forall j | a + 2 <= j < b :: t[j] == n[j - a - 2];
    assert forall j | b + 2 <= j < |t| :: t[j] == post[j - b - 2];
    assert forall j | 0 <= j < |t| && t[j] == '%' :: j == a || j == a + 1 || j == b || j == b + 1;
    if OccursAt(Delimit(m), t, i) {
      var d := Delimit(m);
      assert t[i] == d[0] && t[i + 1] == d[1];
      assert t[i + |m| + 2] == d[|m| + 2] && t[i + |m| + 3] == d[|m| + 3];
      assert i == a && i + |m| + 2 == b;
      forall j | 0 <= j < |m| ensures m[j] == n[j] {
        assert t[i + 2 + j] == d[j + 2];
      }
    }
  }

  /** The rewriting loop over text with one token and no other `%` puts the variable's
      value in place of the token when the variable is visited and set; a later visit
      changes nothing, provided the value holds no `%`. */
  lemma {:induction false} SubstituteAllOfSingleToken(pre: string, n: string, post: string,
                                                      names: seq<string>, env: map<string, string>)
    requires NoPercent(pre) && NoPercent(post) && IsEnvvarName(n)
    requires forall k | 0 <= k < |names| :: IsEnvvarName(names[k])
    requires n in env ==> NoPercent(env[n])
    ensures SubstituteAll(pre + Delimit(n) + post, names, env)
         == pre + (if n in env && n in names then env[n] else Delimit(n)) + post
    decreases |names|
  {
    if names != [] {
      var t := pre + Delimit(n) + post;
      var m := names[0];
      assert forall k | 0 <= k < |names| - 1 :: names[1..][k] == names[k + 1];
      if m == n && n in env {
        ReplaceSingleToken(pre, n, post, env[n]);
        var r := pre + env[n] + post;
        assert NoPercent(r) by {
          forall j | 0 <= j < |r| ensures r[j] != '%' {
            if j < |pre| {
              assert r[j] == pre[j];
            } else if j < |pre| + |env[n]| {
              assert r[j] == env[n][j - |pre|];
            } else {
              assert r[j] == post[j - |pre| - |env[n]|];
            }
          }
        }
      } else {
        if m in env {
          forall i ensures !OccursAt(Delimit(m), t, i) {
            OnlyOwnTokenOccurs(pre, n, post, m, i);
          }
          ReplaceAllAbsent(t, Delimit(m), env[m]);
        }
        SubstituteAllOfSingleToken(pre, n, post, names[1..], env);
        assert n in env ==> (n in names <==> n in names[1..]);
      }
    }
  }

  // ---------------------------------------------------------------------------
  // Text laid out in lines

  /** One line of configuration text: either text without tokens, or text with exactly
      one token and no other `%`. */
  datatype Segment =
    | Plain(text: string)
    | Holder(pre: string, name: string, post: string)

  function RenderSegment(g: Segment): string
  {
    match g
    case Plain(t) => t
    case Holder(pre, n, post) => pre + Delimit(n) + post
  }

  predicate WellFormedSegment(g: Segment)
  {
    match g
    case Plain(t) => TokenFree(t)
    case Holder(pre, n, post) => NoPercent(pre) && NoPercent(post) && IsEnvvarName(n)
  }

  /** Segments every one of which is well formed. */
  predicate WellFormedLines(gs: seq<Segment>)
  {
    forall k | 0 <= k < |gs| :: WellFormedSegment(gs[k])
  }

  /** The variables the lines name that are set hold values without `%`. */
  predicate PercentFreeValues(gs: seq<Segment>, env: map<string, string>)
  {
    forall k | 0 <= k < |gs| && gs[k].Holder? && gs[k].name in env :: NoPercent(env[gs[k].name])
  }

  /** The intended meaning of interpolation, line by line: the token of a set variable
      becomes the variable's value; everything else stays. */
  function ResolveSegment(g: Segment, env: map<string, string>): string
  {
    match g
    case Plain(t) => t
    case Holder(pre, n, post) => pre + (if n in env then env[n] else Delimit(n)) + post
  }

  function Rendered(gs: seq<Segment>): (lines: seq<string>)
    ensures |lines| == |gs| && forall k | 0 <= k < |gs| :: lines[k] == RenderSegment(gs[k])
  {
    seq(|gs|, k requires 0 <= k < |gs| => RenderSegment(gs[k]))
  }

  function Resolved(gs: seq<Segment>, env: map<string, string>): (lines: seq<string>)
    ensures |lines| == |gs| && forall k | 0 <= k < |gs| :: lines[k] == ResolveSegment(gs[k], env)
  {
    seq(|gs|, k requires 0 <= k < |gs| => ResolveSegment(gs[k], env))
  }

  /** Lines joined by a separator character. */
  function Join(lines: seq<string>, sep: char): string
    requires lines != []
    decreases |lines|
  {
    if |lines| == 1 then lines[0] else lines[0] + [sep] + Join(lines[1..], sep)
  }

  /** The scan finds every token that it finds in a line also in the joined text. */
  lemma {:induction false} CandidatesOfJoin(lines: seq<string>, sep: char)
    requires lines != [] && IsSeparator(sep)
    ensures forall k, m | 0 <= k < |lines| && m in Candidates(lines[k]) :: m in Candidates(Join(lines, sep))
    decreases |lines|
  {
    if |lines| > 1 {
      var rest := Join(lines[1..], sep);
      var all := Candidates(lines[0]) + Candidates(rest);
      CandidatesAcrossSeparator(lines[0], sep, rest);
      CandidatesOfJoin(lines[1..], sep);
      forall k, m | 0 <= k < |lines| && m in Candidates(lines[k])
        ensures m in Candidates(Join(lines, sep))
      {
        if k > 0 {
          assert lines[1..][k - 1] == lines[k];
          assert m in Candidates(rest);
        }
        assert m in all;
      }
    }
  }

  /** The rewriting loop over joined lines is the loop over each line, joined. */
  lemma {:induction false} SubstituteAllOfJoin(lines: seq<string>, sep: char, names: seq<string>,
                                               env: map<string, string>, out: seq<string>)
    requires lines != [] && IsSeparator(sep) && |out| == |lines|
    requires forall k | 0 <= k < |names| :: IsEnvvarName(names[k])
    requires forall k | 0 <= k < |lines| :: SubstituteAll(lines[k], names, env) == out[k]
    ensures SubstituteAll(Join(lines, sep), names, env) == Join(out, sep)
    decreases |lines|
  {
    if |lines| > 1 {
      SubstituteAllAcrossSeparator(lines[0], sep, Join(lines[1..], sep), names, env);
      assert forall k | 0 <= k < |lines| - 1 :: lines[1..][k] == lines[k + 1] && out[1..][k] == out[k + 1];
      SubstituteAllOfJoin(lines[1..], sep, names, env, out[1..]);
    }
  }

  /** Interpolation of well-formed lines joined by a separator resolves each line on its
      own: the token of a set variable becomes the variable's value, a token of an unset
      variable and every token-free line are kept byte for byte. The values of the set
      variables the lines name must hold no `%`; nothing else is asked of them. */
  lemma InterpolateLayout(gs: seq<Segment>, sep: char, env: map<string, string>)
    requires gs != [] && IsSeparator(sep) && WellFormedLines(gs) && PercentFreeValues(gs, env)
    ensures Interpolate(Join(Rendered(gs), sep), env) == Join(Resolved(gs, env), sep)
  {
    var lines := Rendered(gs);
    var names := Candidates(Join(lines, sep));
    CandidatesOfJoin(lines, sep);
    forall k | 0 <= k < |lines|
      ensures SubstituteAll(lines[k], names, env) == Resolved(gs, env)[k]
    {
      match gs[k]
      case Plain(t) =>
        SubstituteAllOfTokenFree(t, names, env);
      case Holder(pre, n, post) =>
        CandidatesOfSingleToken(pre, n, post);
        assert n in Candidates(lines[k]);
        SubstituteAllOfSingleToken(pre, n, post, names, env);
    }
    SubstituteAllOfJoin(lines, sep, names, env, Resolved(gs, env));
  }

  // ---------------------------------------------------------------------------
  // The envvar configuration of config_test.go

  /** A line without `%` is well formed. */
  lemma PlainWellFormed(t: string)
    requires '%' !in t
    ensures WellFormedSegment(Plain(t))
  {
    TokenFreeOfNoPercent(t);
  }

  /** A line with one token, of a well-formed name, and no other `%` is well formed. */
  lemma HolderWellFormed(pre: string, n: string, post: string)
    requires '%' !in pre && '%' !in post && IsEnvvarName(n)
    ensures WellFormedSegment(Holder(pre, n, post))
  {
  }

  /** A line with fewer than four `%` around a name is well formed. */
  lemma UnpairedWellFormed(pre: string, lead: string, x: string, trail: string, post: string)
    requires '%' !in pre && '%' !in x && '%' !in post && |lead| + |trail| < 4
    ensures WellFormedSegment(Plain(pre + lead + x + trail + post))
  {
    TokenFreeOfUnpaired(pre, lead, x, trail, post);
  }

  /** A line whose only `%%x%%` holds no well-formed name is well formed. */
  lemma NonNameWellFormed(pre: string, x: string, post: string)
    requires '%' !in pre && '%' !in x && '%' !in post && !IsEnvvarName(x)
    ensures WellFormedSegment(Plain(pre + "%%" + x + "%%" + post))
  {
    TokenFreeOfNonName(pre, x, post);
  }

  /** The environment of config_test.go, as far as the configuration text names it. */
  predicate EnvvarTestEnvironment(env: map<string, string>)
  {
    && "PREFIX" in env && env["PREFIX"] == "prefix"
    && "THIS_SHOULD_INTERPOLATE" in env && env["THIS_SHOULD_INTERPOLATE"] == "yey this got interpolated"
    && "SIGNALFX_AUTH_TOKEN" in env && env["SIGNALFX_AUTH_TOKEN"] == "blah_blah_auth_blah"
    && "IS_ALSO_NOT_AFFECTED_BECAUSE_NOT_SET" !in env
  }

  /** The `%`-free texts a configuration text of the shape of config_test.go's is made
      of, around its tokens and `%` signs. */
  predicate EnvvarTestTexts(t: seq<string>)
  {
    |t| == 43 && forall k | 0 <= k < |t| :: '%' !in t[k]
  }

  /** The texts config_test.go itself fills the configuration with, in order. */
  function EnvvarTestText(): seq<string>
  {
    [ "{",
      "\t\t\"prefix\": \"",
      "\",",
      "\t\t\"interval\": 10,",
      "\t\t\"defaultDimensions\": {",
      "\t\t\t\t\"application\": \"fullerite\",",
      "\t\t\t\t\"this_should_interpolate\": \"",
      "\",",
      "\t\t\t\t\"test_percent1\": \"",
      "\",",
      "\t\t\t\t\"test_percent2\": \"",
      "\",",
      "\t\t\t\t\"test_percent3\": \"",
      "\",",
      "\t\t\t\t\"test_percent4\": \"",
      "\",",
      "\t\t\t\t\"test_percent4\": \"",
      "\",",
      "\t\t\t\t\"test_short_does_not_work1\": \"asijwef",
      "iwefwewef\",",
      "\t\t\t\t\"test_short_does_not_work2\": \"asijwef",
      "iwefwewef\",",
      "\t\t\t\t\"test_numeric_start_does_not_work\": \"",
      "\",",
      "\t\t\t\t\"test_lowercase_does_not_work\": \"",
      "\",",
      "\t\t\t\t\"host\": \"dev33-devc\"",
      "\t\t},",
      "\t\t\"collectorsConfigPath\": \"/tmp\",",
      "\t\t\"diamondCollectorsPath\": \"src/diamond/collectors\",",
      "\t\t\"diamondCollectors\": [\"CPUCollector\",\"PingCollector\"],",
      "\t\t\"collectors\": [\"Test\"],",
      "\t\t\"handlers\": {",
      "\t\t\t\t\"SignalFx\": {",
      "\t\t\t\t\t\t\"authToken\": \"",
      "\",",
      "\t\t\t\t\t\t\"endpoint\": \"https://ingest.signalfx.com/v2/datapoint\",",
      "\t\t\t\t\t\t\"interval\": 10,",
      "\t\t\t\t\t\t\"timeout\": 2,",
      "\t\t\t\"collectorBlackList\": [\"TestCollector1\", \"TestCollector2\"]",
      "\t\t\t}",
      "\t\t}",
      "}"
    ]
  }

  /** Lines 1 to 3 of the configuration text of config_test.go. */
  function EnvvarTestLines1(t: seq<string>): seq<Segment>
    requires |t| == 43
  {
    [ Plain(t[0]),
      Holder(t[1], "PREFIX", t[2]),
      Plain(t[3])
    ]
  }

  /** Lines 1 to 3 as config_test.go expects to read them back. */
  function EnvvarTestInterpolated1(t: seq<string>): seq<string>
    requires |t| == 43
  {
    [ t[0],
      t[1] + "prefix" + t[2],
      t[3]
    ]
  }

  /** Lines 1 to 3 are well formed and read back as config_test.go expects. */
  lemma EnvvarTestBlock1(t: seq<string>, env: map<string, string>)
    requires EnvvarTestTexts(t) && EnvvarTestEnvironment(env)
    ensures WellFormedLines(EnvvarTestLines1(t)) && PercentFreeValues(EnvvarTestLines1(t), env)
    ensures Resolved(EnvvarTestLines1(t), env) == EnvvarTestInterpolated1(t)
  {
    PlainWellFormed(t[0]);
    HolderWellFormed(t[1], "PREFIX", t[2]);
    PlainWellFormed(t[3]);
    var gs := EnvvarTestLines1(t);
    forall k | 0 <= k < |gs| ensures WellFormedSegment(gs[k]) {
      assert k == 0 || k == 1 || k == 2;
    }
    forall k | 0 <= k < |gs| && gs[k].Holder? && gs[k].name in env ensures NoPercent(env[gs[k].name]) {
      assert k == 1;
    }
    var rs := Resolved(gs, env);
    var es := EnvvarTestInterpolated1(t);
    assert rs[0] == es[0];
    assert rs[1] == es[1];
    assert rs[2] == es[2];
  }

  /** Lines 4 to 6 of the configuration text of config_test.go. */
  function EnvvarTestLines2(t: seq<string>): seq<Segment>
    requires |t| == 43
  {
    [ Plain(t[4]),
      Plain(t[5]),
      Holder(t[6], "THIS_SHOULD_INTERPOLATE", t[7])
    ]
  }

  /** Lines 4 to 6 as config_test.go expects to read them back. */
  function EnvvarTestInterpolated2(t: seq<string>): seq<string>
    requires |t| == 43
  {
    [ t[4],
      t[5],
      t[6] + "yey this got interpolated" + t[7]
    ]
  }

  /** Lines 4 to 6 are well formed and read back as config_test.go expects. */
  lemma EnvvarTestBlock2(t: seq<string>, env: map<string, string>)
    requires EnvvarTestTexts(t) && EnvvarTestEnvironment(env)
    ensures WellFormedLines(EnvvarTestLines2(t)) && PercentFreeValues(EnvvarTestLines2(t), env)
    ensures Resolved(EnvvarTestLines2(t), env) == EnvvarTestInterpolated2(t)
  {
    PlainWellFormed(t[4]);
    PlainWellFormed(t[5]);
    HolderWellFormed(t[6], "THIS_SHOULD_INTERPOLATE", t[7]);
    var gs := EnvvarTestLines2(t);
    forall k | 0 <= k < |gs| ensures WellFormedSegment(gs[k]) {
      assert k == 0 || k == 1 || k == 2;
    }
    forall k | 0 <= k < |gs| && gs[k].Holder? && gs[k].name in env ensures NoPercent(env[gs[k].name]) {
      assert k == 2;
    }
    var rs := Resolved(gs, env);
    var es := EnvvarTestInterpolated2(t);
    assert rs[0] == es[0];
    assert rs[1] == es[1];
    assert rs[2] == es[2];
  }

  /** Lines 7 to 9 of the configuration text of config_test.go. */
  function EnvvarTestLines3(t: seq<string>): seq<Segment>
    requires |t| == 43
  {
    [ Plain(t[8] + "%" + "IS_NOT_AFFECTED" + t[9]),
      Plain(t[10] + "%" + "IS_NOT_AFFECTED" + "%" + t[11]),
      Plain(t[12] + "%%" + "IS_NOT_AFFECTED" + "%" + t[13])
    ]
  }

  /** Lines 7 to 9 as config_test.go expects to read them back. */
  function EnvvarTestInterpolated3(t: seq<string>): seq<string>
    requires |t| == 43
  {
    [ t[8] + "%" + "IS_NOT_AFFECTED" + t[9],
      t[10] + "%" + "IS_NOT_AFFECTED" + "%" + t[11],
      t[12] + "%%" + "IS_NOT_AFFECTED" + "%" + t[13]
    ]
  }

  /** Lines 7 to 9 are well formed and read back as config_test.go expects. */
  lemma EnvvarTestBlock3(t: seq<string>, env: map<string, string>)
    requires EnvvarTestTexts(t) && EnvvarTestEnvironment(env)
    ensures WellFormedLines(EnvvarTestLines3(t)) && PercentFreeValues(EnvvarTestLines3(t), env)
    ensures Resolved(EnvvarTestLines3(t), env) == EnvvarTestInterpolated3(t)
  {
    UnpairedWellFormed(t[8], "%", "IS_NOT_AFFECTED", "", t[9]);
    assert t[8] + "%" + "IS_NOT_AFFECTED" + "" + t[9] == t[8] + "%" + "IS_NOT_AFFECTED" + t[9];
    UnpairedWellFormed(t[10], "%", "IS_NOT_AFFECTED", "%", t[11]);
    UnpairedWellFormed(t[12], "%%", "IS_NOT_AFFECTED", "%", t[13]);
    var gs := EnvvarTestLines3(t);
    forall k | 0 <= k < |gs| ensures WellFormedSegment(gs[k]) {
      assert k == 0 || k == 1 || k == 2;
    }
    var rs := Resolved(gs, env);
    var es := EnvvarTestInterpolated3(t);
    assert rs[0] == es[0];
    assert rs[1] == es[1];
    assert rs[2] == es[2];
  }

  /** Lines 10 to 11 of the configuration text of config_test.go. */
  function EnvvarTestLines4(t: seq<string>): seq<Segment>
    requires |t| == 43
  {
    [ Holder(t[14], "IS_ALSO_NOT_AFFECTED_BECAUSE_NOT_SET", t[15]),
      Holder(t[16], "IS_ALSO_NOT_AFFECTED_BECAUSE_NOT_SET", t[17])
    ]
  }

  /** Lines 10 to 11 as config_test.go expects to read them back. */
  function EnvvarTestInterpolated4(t: seq<string>): seq<string>
    requires |t| == 43
  {
    [ t[14] + Delimit("IS_ALSO_NOT_AFFECTED_BECAUSE_NOT_SET") + t[15],
      t[16] + Delimit("IS_ALSO_NOT_AFFECTED_BECAUSE_NOT_SET") + t[17]
    ]
  }

  /** Lines 10 to 11 are well formed and read back as config_test.go expects. */
  lemma EnvvarTestBlock4(t: seq<string>, env: map<string, string>)
    requires EnvvarTestTexts(t) && EnvvarTestEnvironment(env)
    ensures WellFormedLines(EnvvarTestLines4(t)) && PercentFreeValues(EnvvarTestLines4(t), env)
    ensures Resolved(EnvvarTestLines4(t), env) == EnvvarTestInterpolated4(t)
  {
    HolderWellFormed(t[14], "IS_ALSO_NOT_AFFECTED_BECAUSE_NOT_SET", t[15]);
    HolderWellFormed(t[16], "IS_ALSO_NOT_AFFECTED_BECAUSE_NOT_SET", t[17]);
    var gs := EnvvarTestLines4(t);
    forall k | 0 <= k < |gs| ensures WellFormedSegment(gs[k]) {
      assert k == 0 || k == 1;
    }
    var rs := Resolved(gs, env);
    var es := EnvvarTestInterpolated4(t);
    assert rs[0] == es[0];
    assert rs[1] == es[1];
  }

  /** Lines 12 to 13 of the configuration text of config_test.go. */
  function EnvvarTestLines5(t: seq<string>): seq<Segment>
    requires |t| == 43
  {
    [ Plain(t[18] + "%%" + "TS1" + "%%" + t[19]),
      Plain(t[20] + "%%" + "TS_1" + "%%" + t[21])
    ]
  }

  /** Lines 12 to 13 as config_test.go expects to read them back. */
  function EnvvarTestInterpolated5(t: seq<string>): seq<string>
    requires |t| == 43
  {
    [ t[18] + "%%" + "TS1" + "%%" + t[19],
      t[20] + "%%" + "TS_1" + "%%" + t[21]
    ]
  }

  /** Lines 12 to 13 are well formed and read back as config_test.go expects. */
  lemma EnvvarTestBlock5(t: seq<string>, env: map<string, string>)
    requires EnvvarTestTexts(t) && EnvvarTestEnvironment(env)
    ensures WellFormedLines(EnvvarTestLines5(t)) && PercentFreeValues(EnvvarTestLines5(t), env)
    ensures Resolved(EnvvarTestLines5(t), env) == EnvvarTestInterpolated5(t)
  {
    NonNameWellFormed(t[18], "TS1", t[19]);
    NonNameWellFormed(t[20], "TS_1", t[21]);
    var gs := EnvvarTestLines5(t);
    forall k | 0 <= k < |gs| ensures WellFormedSegment(gs[k]) {
      assert k == 0 || k == 1;
    }
    var rs := Resolved(gs, env);
    var es := EnvvarTestInterpolated5(t);
    assert rs[0] == es[0];
    assert rs[1] == es[1];
  }

  /** Lines 14 to 15 of the configuration text of config_test.go. */
  function EnvvarTestLines6(t: seq<string>): seq<Segment>
    requires |t| == 43
  {
    [ Plain(t[22] + "%%" + "1MISSISSIPPI" + "%%" + t[23]),
      Plain(t[24] + "%%" + "this_is_lowercase" + "%%" + t[25])
    ]
  }

  /** Lines 14 to 15 as config_test.go expects to read them back. */
  function EnvvarTestInterpolated6(t: seq<string>): seq<string>
    requires |t| == 43
  {
    [ t[22] + "%%" + "1MISSISSIPPI" + "%%" + t[23],
      t[24] + "%%" + "this_is_lowercase" + "%%" + t[25]
    ]
  }

  /** Lines 14 to 15 are well formed and read back as config_test.go expects. */
  lemma EnvvarTestBlock6(t: seq<string>, env: map<string, string>)
    requires EnvvarTestTexts(t) && EnvvarTestEnvironment(env)
    ensures WellFormedLines(EnvvarTestLines6(t)) && PercentFreeValues(EnvvarTestLines6(t), env)
    ensures Resolved(EnvvarTestLines6(t), env) == EnvvarTestInterpolated6(t)
  {
    NonNameWellFormed(t[22], "1MISSISSIPPI", t[23]);
    NonNameWellFormed(t[24], "this_is_lowercase", t[25]);
    var gs := EnvvarTestLines6(t);
    forall k | 0 <= k < |gs| ensures WellFormedSegment(gs[k]) {
      assert k == 0 || k == 1;
    }
    var rs := Resolved(gs, env);
    var es := EnvvarTestInterpolated6(t);
    assert rs[0] == es[0];
    assert rs[1] == es[1];
  }

  /** Lines 16 to 21 of the configuration text of config_test.go. */
  function EnvvarTestLines7(t: seq<string>): seq<Segment>
    requires |t| == 43
  {
    [ Plain(t[26]),
      Plain(t[27]),
      Plain(t[28]),
      Plain(t[29]),
      Plain(t[30]),
      Plain(t[31])
    ]
  }

  /** Lines 16 to 21 as config_test.go expects to read them back. */
  function EnvvarTestInterpolated7(t: seq<string>): seq<string>
    requires |t| == 43
  {
    [ t[26],
      t[27],
      t[28],
      t[29],
      t[30],
      t[31]
    ]
  }

  /** Lines 16 to 21 are well formed and read back as config_test.go expects. */
  lemma EnvvarTestBlock7(t: seq<string>, env: map<string, string>)
    requires EnvvarTestTexts(t) && EnvvarTestEnvironment(env)
    ensures WellFormedLines(EnvvarTestLines7(t)) && PercentFreeValues(EnvvarTestLines7(t), env)
    ensures Resolved(EnvvarTestLines7(t), env) == EnvvarTestInterpolated7(t)
  {
    PlainWellFormed(t[26]);
    PlainWellFormed(t[27]);
    PlainWellFormed(t[28]);
    PlainWellFormed(t[29]);
    PlainWellFormed(t[30]);
    PlainWellFormed(t[31]);
    var gs := EnvvarTestLines7(t);
    forall k | 0 <= k < |gs| ensures WellFormedSegment(gs[k]) {
      assert k == 0 || k == 1 || k == 2 || k == 3 || k == 4 || k == 5;
    }
    var rs := Resolved(gs, env);
    var es := EnvvarTestInterpolated7(t);
    assert rs[0] == es[0];
    assert rs[1] == es[1];
    assert rs[2] == es[2];
    assert rs[3] == es[3];
    assert rs[4] == es[4];
    assert rs[5] == es[5];
  }

  /** Lines 22 to 24 of the configuration text of config_test.go. */
  function EnvvarTestLines8(t: seq<string>): seq<Segment>
    requires |t| == 43
  {
    [ Plain(t[32]),
      Plain(t[33]),
      Holder(t[34], "SIGNALFX_AUTH_TOKEN", t[35])
    ]
  }

  /** Lines 22 to 24 as config_test.go expects to read them back. */
  function EnvvarTestInterpolated8(t: seq<string>): seq<string>
    requires |t| == 43
  {
    [ t[32],
      t[33],
      t[34] + "blah_blah_auth_blah" + t[35]
    ]
  }

  /** Lines 22 to 24 are well formed and read back as config_test.go expects. */
  lemma EnvvarTestBlock8(t: seq<string>, env: map<string, string>)
    requires EnvvarTestTexts(t) && EnvvarTestEnvironment(env)
    ensures WellFormedLines(EnvvarTestLines8(t)) && PercentFreeValues(EnvvarTestLines8(t), env)
    ensures Resolved(EnvvarTestLines8(t), env) == EnvvarTestInterpolated8(t)
  {
    PlainWellFormed(t[32]);
    PlainWellFormed(t[33]);
    HolderWellFormed(t[34], "SIGNALFX_AUTH_TOKEN", t[35]);
    var gs := EnvvarTestLines8(t);
    forall k | 0 <= k < |gs| ensures WellFormedSegment(gs[k]) {
      assert k == 0 || k == 1 || k == 2;
    }
    forall k | 0 <= k < |gs| && gs[k].Holder? && gs[k].name in env ensures NoPercent(env[gs[k].name]) {
      assert k == 2;
    }
    var rs := Resolved(gs, env);
    var es := EnvvarTestInterpolated8(t);
    assert rs[0] == es[0];
    assert rs[1] == es[1];
    assert rs[2] == es[2];
  }

  /** Lines 25 to 28 of the configuration text of config_test.go. */
  function EnvvarTestLines9(t: seq<string>): seq<Segment>
    requires |t| == 43
  {
    [ Plain(t[36]),
      Plain(t[37]),
      Plain(t[38]),
      Plain(t[39])
    ]
  }

  /** Lines 25 to 28 as config_test.go expects to read them back. */
  function EnvvarTestInterpolated9(t: seq<string>): seq<string>
    requires |t| == 43
  {
    [ t[36],
      t[37],
      t[38],
      t[39]
    ]
  }

  /** Lines 25 to 28 are well formed and read back as config_test.go expects. */
  lemma EnvvarTestBlock9(t: seq<string>, env: map<string, string>)
    requires EnvvarTestTexts(t) && EnvvarTestEnvironment(env)
    ensures WellFormedLines(EnvvarTestLines9(t)) && PercentFreeValues(EnvvarTestLines9(t), env)
    ensures Resolved(EnvvarTestLines9(t), env) == EnvvarTestInterpolated9(t)
  {
    PlainWellFormed(t[36]);
    PlainWellFormed(t[37]);
    PlainWellFormed(t[38]);
    PlainWellFormed(t[39]);
    var gs := EnvvarTestLines9(t);
    forall k | 0 <= k < |gs| ensures WellFormedSegment(gs[k]) {
      assert k == 0 || k == 1 || k == 2 || k == 3;
    }
    var rs := Resolved(gs, env);
    var es := EnvvarTestInterpolated9(t);
    assert rs[0] == es[0];
    assert rs[1] == es[1];
    assert rs[2] == es[2];
    assert rs[3] == es[3];
  }

  /** Lines 29 to 31 of the configuration text of config_test.go. */
  function EnvvarTestLines10(t: seq<string>): seq<Segment>
    requires |t| == 43
  {
    [ Plain(t[40]),
      Plain(t[41]),
      Plain(t[42])
    ]
  }

  /** Lines 29 to 31 as config_test.go expects to read them back. */
  function EnvvarTestInterpolated10(t: seq<string>): seq<string>
    requires |t| == 43
  {
    [ t[40],
      t[41],
      t[42]
    ]
  }

  /** Lines 29 to 31 are well formed and read back as config_test.go expects. */
  lemma EnvvarTestBlock10(t: seq<string>, env: map<string, string>)
    requires EnvvarTestTexts(t) && EnvvarTestEnvironment(env)
    ensures WellFormedLines(EnvvarTestLines10(t)) && PercentFreeValues(EnvvarTestLines10(t), env)
    ensures Resolved(EnvvarTestLines10(t), env) == EnvvarTestInterpolated10(t)
  {
    PlainWellFormed(t[40]);
    PlainWellFormed(t[41]);
    PlainWellFormed(t[42]);
    var gs := EnvvarTestLines10(t);
    forall k | 0 <= k < |gs| ensures WellFormedSegment(gs[k]) {
      assert k == 0 || k == 1 || k == 2;
    }
    var rs := Resolved(gs, env);
    var es := EnvvarTestInterpolated10(t);
    assert rs[0] == es[0];
    assert rs[1] == es[1];
    assert rs[2] == es[2];
  }

  /** The configuration text of config_test.go, one segment per line. The text of a line
      without `%`, and the text before and after the token or the `%` signs of every
      other line, is left open as `t`: config_test.go fills it with tabs, keys, quotes
      and commas, none of which holds `%`. */
  function EnvvarTestLines(t: seq<string>): seq<Segment>
    requires |t| == 43
  {
    EnvvarTestLines1(t) + EnvvarTestLines2(t) + EnvvarTestLines3(t) + EnvvarTestLines4(t) + EnvvarTestLines5(t) + EnvvarTestLines6(t) + EnvvarTestLines7(t) + EnvvarTestLines8(t) + EnvvarTestLines9(t) + EnvvarTestLines10(t)
  }

  function EnvvarTestConfiguration(t: seq<string>): string
    requires |t| == 43
  {
    Join(Rendered(EnvvarTestLines(t)), '\n')
  }

  /** The configuration text as config_test.go expects to read it back: its three
      variables replaced, every other line unchanged. */
  function EnvvarTestInterpolated(t: seq<string>): seq<string>
    requires |t| == 43
  {
    EnvvarTestInterpolated1(t) + EnvvarTestInterpolated2(t) + EnvvarTestInterpolated3(t) + EnvvarTestInterpolated4(t) + EnvvarTestInterpolated5(t) + EnvvarTestInterpolated6(t) + EnvvarTestInterpolated7(t) + EnvvarTestInterpolated8(t) + EnvvarTestInterpolated9(t) + EnvvarTestInterpolated10(t)
  }

  /** Resolution is line by line, so it distributes over blocks of lines. */
  lemma ResolvedAppend(a: seq<Segment>, b: seq<Segment>, env: map<string, string>)
    ensures Resolved(a + b, env) == Resolved(a, env) + Resolved(b, env)
  {
  }

  lemma WellFormedLinesAppend(a: seq<Segment>, b: seq<Segment>)
    requires WellFormedLines(a) && WellFormedLines(b)
    ensures WellFormedLines(a + b)
  {
  }

  lemma PercentFreeValuesAppend(a: seq<Segment>, b: seq<Segment>, env: map<string, string>)
    requires PercentFreeValues(a, env) && PercentFreeValues(b, env)
    ensures PercentFreeValues(a + b, env)
  {
  }

  /** Every line is well formed, and resolves to what config_test.go expects. */
  lemma EnvvarTestBlocks(t: seq<string>, env: map<string, string>)
    requires EnvvarTestTexts(t) && EnvvarTestEnvironment(env)
    ensures WellFormedLines(EnvvarTestLines(t)) && PercentFreeValues(EnvvarTestLines(t), env)
    ensures Resolved(EnvvarTestLines(t), env) == EnvvarTestInterpolated(t)
  {
    EnvvarTestBlock1(t, env);
    EnvvarTestBlock2(t, env);
    EnvvarTestBlock3(t, env);
    EnvvarTestBlock4(t, env);
    EnvvarTestBlock5(t, env);
    EnvvarTestBlock6(t, env);
    EnvvarTestBlock7(t, env);
    EnvvarTestBlock8(t, env);
    EnvvarTestBlock9(t, env);
    EnvvarTestBlock10(t, env);
    var g1 := EnvvarTestLines1(t);
    WellFormedLinesAppend(g1, EnvvarTestLines2(t));
    PercentFreeValuesAppend(g1, EnvvarTestLines2(t), env);
    ResolvedAppend(g1, EnvvarTestLines2(t), env);
    var g2 := g1 + EnvvarTestLines2(t);
    WellFormedLinesAppend(g2, EnvvarTestLines3(t));
    PercentFreeValuesAppend(g2, EnvvarTestLines3(t), env);
    ResolvedAppend(g2, EnvvarTestLines3(t), env);
    var g3 := g2 + EnvvarTestLines3(t);
    WellFormedLinesAppend(g3, EnvvarTestLines4(t));
    PercentFreeValuesAppend(g3, EnvvarTestLines4(t), env);
    ResolvedAppend(g3, EnvvarTestLines4(t), env);
    var g4 := g3 + EnvvarTestLines4(t);
    WellFormedLinesAppend(g4, EnvvarTestLines5(t));
    PercentFreeValuesAppend(g4, EnvvarTestLines5(t), env);
    ResolvedAppend(g4, EnvvarTestLines5(t), env);
    var g5 := g4 + EnvvarTestLines5(t);
    WellFormedLinesAppend(g5, EnvvarTestLines6(t));
    PercentFreeValuesAppend(g5, EnvvarTestLines6(t), env);
    ResolvedAppend(g5, EnvvarTestLines6(t), env);
    var g6 := g5 + EnvvarTestLines6(t);
    WellFormedLinesAppend(g6, EnvvarTestLines7(t));
    PercentFreeValuesAppend(g6, EnvvarTestLines7(t), env);
    ResolvedAppend(g6, EnvvarTestLines7(t), env);
    var g7 := g6 + EnvvarTestLines7(t);
    WellFormedLinesAppend(g7, EnvvarTestLines8(t));
    PercentFreeValuesAppend(g7, EnvvarTestLines8(t), env);
    ResolvedAppend(g7, EnvvarTestLines8(t), env);
    var g8 := g7 + EnvvarTestLines8(t);
    WellFormedLinesAppend(g8, EnvvarTestLines9(t));
    PercentFreeValuesAppend(g8, EnvvarTestLines9(t), env);
    ResolvedAppend(g8, EnvvarTestLines9(t), env);
    var g9 := g8 + EnvvarTestLines9(t);
    WellFormedLinesAppend(g9, EnvvarTestLines10(t));
    PercentFreeValuesAppend(g9, EnvvarTestLines10(t), env);
    ResolvedAppend(g9, EnvvarTestLines10(t), env);
  }

  /** config_test.go reads the configuration back after setting PREFIX,
      THIS_SHOULD_INTERPOLATE and SIGNALFX_AUTH_TOKEN and leaving
      IS_ALSO_NOT_AFFECTED_BECAUSE_NOT_SET unset: the three tokens become the values, and
      every other line, stray `%` signs and malformed tokens included, comes back
      unchanged, whatever the rest of the environment holds. */
  lemma EnvvarTestConfigurationInterpolated(t: seq<string>, env: map<string, string>)
    requires EnvvarTestTexts(t) && EnvvarTestEnvironment(env)
    ensures Interpolate(EnvvarTestConfiguration(t), env) == Join(EnvvarTestInterpolated(t), '\n')
  {
    EnvvarTestBlocks(t, env);
    InterpolateLayout(EnvvarTestLines(t), '\n', env);
  }
}
