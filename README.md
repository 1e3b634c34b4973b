# fullerite configuration and Debug handler, modelled in Dafny

fullerite is a metrics collection daemon. Collectors produce metrics and handlers ship
them to sinks, and both are configured from JSON files. This project models two parts of
it:

- **Configuration text and values** (`src/fullerite/config/config.go`):
  - environment-variable interpolation of raw configuration text. Tokens
    `%%NAME%%` whose NAME matches `[A-Z][A-Z0-9_]{4,}` are replaced by the value of the
    variable when it is set.
  - the path of a collector's configuration file.
  - the loose-typed coercions `GetAsInt`, `GetAsMap` and `GetAsSlice`.
- **The Debug handler** (`src/fullerite/handler/debug.go`): a sink that logs each
  metric of a batch. It is a class with the handler's fields, a constructor,
  `Configure`, and `EmitMetrics` with a ghost log.

Files:

- `go_text.dfy` (module `GoText`): the pieces of Go's standard library the code relies
  on, written as functions. These are literal replace-all (`strings.Replace` with
  `-1`, and `regexp.ReplaceAllLiteral` on a pattern with no metacharacters) and
  `strconv.ParseInt(s, 10, 64)`, with its printing counterpart for round trips.
- `interpolation.dfy` (module `Interpolation`): the token scanner (`regexp.FindAll`
  specialised to the one pattern), the rewriting loop as a function, and the source's
  loop as a method proved equal to it.
- `interpolation_proofs.dfy` (module `InterpolationProofs`): what interpolation means.
  Configuration text is viewed as a sequence of pieces (plain text and tokens). The
  main theorem is that interpolation replaces exactly the tokens of set variables by
  their values and keeps everything else byte for byte. Further lemmas cover single
  tokens, malformed tokens, stray `%` characters, and the strings of the repository's
  tests.
- `interpolation_segments.dfy` (module `InterpolationSegments`): configuration text as
  lines joined by a separator character that is neither `%` nor a name character. The
  scan, the literal replacements and so the whole interpolation work line by line across
  such a separator. Lines may hold stray `%` signs and malformed tokens. The theorem is
  applied to the layout of `config_test.go`'s envvar configuration, with every stretch of
  `%`-free text left symbolic.
- `config.dfy` (module `Config`): the `Value` datatype for dynamically typed
  configuration values, the collector configuration path, and the coercions.
- `debug.dfy` (module `DebugHandler`): metrics, the log lines, and the `Debug` class.

### Modelled behaviour worth knowing

- **Every match is rewritten.** The interpolation loop visits every token the scan
  finds, duplicates included. Each time, it rewrites the *current* text. A
  variable's value that itself contains a token `%%OTHER%%` is therefore expanded
  again when `OTHER` is visited later in the loop. The model keeps this, because it is
  what the code does.
- **Why the general theorems need conditions.** A literal replace-all rewrites the
  current text, so a value can combine with the text around it into a new token. Take
  the text `%%AAAAA%%BBBBB%%`, with `AAAAA` set to `x%%` and `BBBBB` set. The scan finds
  only `AAAAA`. Replacing it gives `x%%BBBBB%%`, and `BBBBB` is never visited, so its
  token survives. Had the scan also found `BBBBB` elsewhere in the text, this new token
  would be replaced as well. So the general theorems ask that the values of the
  variables the text names contain no `%`. `InterpolationProofs.InterpolateRendered`
  asks this only of values that could combine, and lets any other variable hold
  anything. Separately, the scan is leftmost and non-overlapping: in
  `%%AAAAA%%BBBBB%%CCCCC%%` it finds `AAAAA` and `CCCCC`, not `BBBBB`. So the
  piece-based theorem asks that no plain text between two tokens looks like a name.
  The single-token lemma needs no condition on the value.
- **Conditions for the proof only.** Several lemmas ask that stretches of plain text
  contain no `%`, or that stray `%` sit only in the shapes the lemmas name. The code
  does not need these conditions. They keep the statements and their proofs small.
  Text with stray `%` signs and malformed tokens beside real tokens is covered line by
  line by `InterpolationSegments.InterpolateLayout`.
- **Integer coercion.** `GetAsInt` accepts exactly what `strconv.ParseInt(s, 10, 64)`
  accepts: one optional sign, then decimal digits, within 64 bits. It truncates a
  float toward zero.
- **Configure.** `Configure` delegates to the base handler's `configureCommonParams`,
  and the base handler is not part of this model. The model assumes the effect that
  `debug_test.go` fixes: the options `interval` and `max_buffer_size`, when present,
  are coerced with `GetAsInt`, and the field's current value is the default. This
  assumption is `DebugHandler.CommonParam`.

## Model

| member | source | states |
|---|---|---|
| Interpolation.Delimit | src/fullerite/config/config.go:38-40 | the literal pattern built for a name is four characters longer than the name and starts with `%` |
| Interpolation.Substitute | src/fullerite/config/config.go:39-42 | one visit of the loop: the text is unchanged when the variable is unset, and unchanged when it holds no `%` |
| Interpolation.SubstituteAll | src/fullerite/config/config.go:37-43 | visiting the matches in order leaves the text unchanged when none of their variables is set, or when it holds no `%` |
| Interpolation.Interpolate | src/fullerite/config/config.go:30-45 | a text without `%` is returned unchanged, and so is a text none of whose tokens names a set variable |
| Interpolation.TokenAt | src/fullerite/config/config.go:35 | a token found at the start of the text has a name matching `[A-Z][A-Z0-9_]{4,}` and is literally `%%` + name + `%%` |
| Interpolation.TokenAtFinds | src/fullerite/config/config.go:35-36 | conversely, every well-formed token at the start of the text is found, with exactly its name |
| Interpolation.Candidates | src/fullerite/config/config.go:36 | every name the leftmost non-overlapping scan returns matches `[A-Z][A-Z0-9_]{4,}` |
| Interpolation.InterpolateEnvvarsIntoConfigRead | src/fullerite/config/config.go:33-44 | the loop over the matches, which rewrites the text once per match whose variable is set (duplicates included), yields exactly `Interpolate(contents, env)` |
| InterpolationProofs.CandidatesOfRender | src/fullerite/config/config.go:35-36 | on well-formed text, the scan returns the token names in order of appearance, duplicates included, and nothing else |
| InterpolationProofs.ReplaceAllOfRender | src/fullerite/config/config.go:40-41 | replacing one token literally resolves exactly the occurrences of that token and changes nothing else |
| InterpolationProofs.InterpolateRendered | src/fullerite/config/config.go:30-45 | with inert plain text, and inert values for the set variables the text names (other variables may hold anything), interpolation replaces every token of a set variable by its value, leaves tokens of unset variables, and keeps all other text byte for byte |
| InterpolationProofs.InterpolateSingleToken | src/fullerite/config/config.go:37-43 | one token among `%`-free text becomes the variable's value, whatever that value holds, when the variable is set, and stays verbatim when it is not |
| InterpolationProofs.InterpolateIgnoresNonName | src/fullerite/config/config.go:35 | `%%x%%` with a name `x` not matching the pattern (too short, digit-led, lowercase) is left verbatim, with its surroundings |
| InterpolationProofs.CandidatesNeedFourPercents | src/fullerite/config/config.go:35-36 | a text in which the scan finds any token holds at least four `%` |
| InterpolationProofs.InterpolateFewPercents | src/fullerite/config/config.go:30-45 | a text with fewer than four `%` is returned unchanged |
| InterpolationProofs.InterpolateUnpaired | src/fullerite/config/config.go:30-45 | a `%`-free text wrapped in at most three `%` in total is returned unchanged |
| InterpolationProofs.UnpairedPercentsLeftVerbatim | src/fullerite/config/config_test.go:256-270 | `%IS_NOT_AFFECTED`, `%IS_NOT_AFFECTED%` and `%%IS_NOT_AFFECTED%` are unchanged whatever the environment |
| InterpolationProofs.ShortNamesLeftVerbatim | src/fullerite/config/config_test.go:276-285 | `asijwef%%TS1%%iwefwewef` and `asijwef%%TS_1%%iwefwewef` are unchanged whatever the environment |
| InterpolationProofs.DigitLedNameLeftVerbatim | src/fullerite/config/config_test.go:286-290 | `%%1MISSISSIPPI%%` is unchanged whatever the environment |
| InterpolationProofs.LowercaseNameLeftVerbatim | src/fullerite/config/config_test.go:291-295 | `%%this_is_lowercase%%` is unchanged whatever the environment |
| InterpolationProofs.PrefixInterpolated | src/fullerite/config/config_test.go:241-245 | `"prefix": "%%PREFIX%%",` becomes the text with the value of PREFIX in place of the token |
| InterpolationProofs.CollectorIntervalInterpolated | src/fullerite/config/config_test.go:200-209 | `"interval": %%COLLECTOR_INTERVAL%%` becomes the text with the variable's value in place of the token |
| InterpolationProofs.UnsetVariableLeftVerbatim | src/fullerite/config/config_test.go:271-275 | the token of an unset variable stays verbatim |
| GoText.ReplaceAll | src/fullerite/config/config.go:40-41 | literal replace-all leaves the text unchanged when the first character of the pattern never occurs in it, and when the replacement equals the pattern |
| GoText.ReplaceAllSkipsPrefix | src/fullerite/config/config.go:40-41 | text before the first possible start of the pattern is copied unchanged, and the rest is replaced independently |
| GoText.ReplaceAllAtOccurrence | src/fullerite/config/config.go:40-41 | an occurrence of the pattern at the start becomes the replacement, and scanning resumes after it |
| GoText.ParseInt64 | src/fullerite/config/config.go:117 | a successful parse lies within the signed 64-bit range |
| GoText.FormatInt | src/fullerite/config/config.go:117 | printing an integer gives a non-empty text starting with `-` exactly when the integer is negative, with only digits after the sign |
| GoText.ReplaceAllAbsent | src/fullerite/config/config.go:40-41 | literal replacement of a pattern that does not occur leaves the text unchanged |
| GoText.ReplaceCharPointwise | src/fullerite/config/config.go:86 | replacing one character by another keeps the length and changes exactly the positions holding that character |
| GoText.ParseFormatRoundTrip | src/fullerite/config/config.go:116-122 | parsing a printed integer gives it back exactly when it fits in 64 bits, and fails otherwise |
| GoText.ParseRejectsNonDigit | src/fullerite/config/config.go:116-122 | any non-digit other than a leading sign makes parsing fail |
| GoText.ParseRejectsBareSign | src/fullerite/config/config.go:116-122 | a sign with no digits is not a number |
| InterpolationSegments.NameRunStopsAtSeparator | src/fullerite/config/config.go:35 | a name stops at a separator character |
| InterpolationSegments.CandidatesAcrossSeparator | src/fullerite/config/config.go:35-36 | the scan of two texts joined by a separator finds the tokens of the first, then those of the second |
| InterpolationSegments.ReplaceAllAcrossSeparator | src/fullerite/config/config.go:40-41 | literal replacement of a pattern without the separator works on each side of it independently |
| InterpolationSegments.SubstituteAllAcrossSeparator | src/fullerite/config/config.go:37-43 | visiting any sequence of names rewrites each side of a separator independently |
| InterpolationSegments.TokenFreeOfNonName | src/fullerite/config/config.go:35 | `%%x%%` between `%`-free text holds no token when `x` is not a valid name |
| InterpolationSegments.TokenFreeOfUnpaired | src/fullerite/config/config.go:35 | `%`-free text with fewer than four `%` around it holds no token |
| InterpolationSegments.TokenFreeOfFewPercents | src/fullerite/config/config.go:35 | a text with fewer than four `%` holds no token |
| InterpolationSegments.SubstituteAllOfTokenFree | src/fullerite/config/config.go:37-43 | the loop leaves a text without tokens unchanged, whatever names it visits |
| InterpolationSegments.OnlyOwnTokenOccurs | src/fullerite/config/config.go:40 | in `%`-free text around one token, the only name whose pattern occurs is that token's |
| InterpolationSegments.SubstituteAllOfSingleToken | src/fullerite/config/config.go:37-43 | a line with one token becomes the variable's value in its place when set (and `%`-free), and stays unchanged otherwise |
| InterpolationSegments.CandidatesOfJoin | src/fullerite/config/config.go:35-36 | every token the scan finds in one line it also finds in the joined text |
| InterpolationSegments.SubstituteAllOfJoin | src/fullerite/config/config.go:37-43 | the loop on joined lines gives the join of its results line by line |
| InterpolationSegments.InterpolateLayout | src/fullerite/config/config.go:30-45 | for lines that are each plain text (stray `%` and malformed tokens allowed) or one token in `%`-free text, joined by a separator, interpolation gives the lines with each token of a set variable replaced by its `%`-free value and everything else kept |
| InterpolationSegments.EnvvarTestConfigurationInterpolated | src/fullerite/config/config_test.go:58-88 | the envvar test configuration, its stray `%`, malformed tokens and unset token included, reads back with exactly PREFIX, THIS_SHOULD_INTERPOLATE and SIGNALFX_AUTH_TOKEN replaced and every other line unchanged, as the test at `config_test.go:221-295` expects |
| Config.CollectorConfigPath | src/fullerite/config/config.go:81-86 | the path is the directory, `/`, the name and `.conf`, with every space in directory or name turned into `_`; it contains no space and ends in `.conf` |
| Config.CollectorConfigPathWithoutSpaces | src/fullerite/config/config.go:81-86 | without spaces the path is exactly directory + `/` + name + `.conf` |
| Config.TruncateTowardZero | src/fullerite/config/config.go:129-130 | the integer is the real with its fraction discarded, toward zero for both signs |
| Config.GetAsInt | src/fullerite/config/config.go:111-134 | parseable text gives its value and other text the default; int, int32 and int64 pass through; a float is truncated toward zero; every other type gives the default |
| Config.GetAsIntOfDecimal | src/fullerite/config/config.go:116-122 | decimal text is read back as the number it denotes when that fits in 64 bits, otherwise the default |
| Config.GetAsIntOfNonNumeric | src/fullerite/config/config.go:116-122 | text with a non-digit (other than a leading sign) gives the default |
| Config.GetAsIntExamples | src/fullerite/config/config_test.go:123-137 | `"10"` gives 10, `"notanint"` the default 123, `12.123` gives 12, `12` gives 12 |
| Config.GetAsMap | src/fullerite/config/config.go:136-162 | from a map of arbitrary values exactly the string-valued entries are kept, with their values; a string map passes through; text is decoded; any other type gives the empty map |
| Config.GetAsSlice | src/fullerite/config/config.go:164-186 | a sequence of values, all strings, is copied with the same length and order; a string sequence passes through; text is decoded; any other type gives the empty sequence |
| Config.GetAsMapOfInterfaceMap | src/fullerite/config/config_test.go:166-170 | the map of values `runtimeenv: dev, region: uswest1-devc` becomes the same map of strings |
| Config.GetAsSliceExamples | src/fullerite/config/config_test.go:181-197 | a string sequence and the decoded sequence of values `a, b, c` come back unchanged, in order |
| DebugHandler.MetricLines | src/fullerite/handler/debug.go:57-59 | one log line per metric, in batch order |
| DebugHandler.EmittedAppend | src/fullerite/handler/debug.go:57-59 | the metrics a log reports are those of its parts, in order |
| DebugHandler.EmittedOfMetricLines | src/fullerite/handler/debug.go:57-59 | the lines written for a batch report exactly that batch, in order |
| DebugHandler.CommonParam | src/fullerite/handler/debug.go:34-37 | an absent option keeps the field's current value; a parseable string option sets the field to its value; an unparseable one keeps the current value |
| DebugHandler.CommonParamOfDecimal | src/fullerite/handler/debug_test.go:26-37 | an option written as decimal text sets the field to that number |
| DebugHandler.Debug.constructor | src/fullerite/handler/debug.go:16-32 | the name is "Debug"; interval, buffer size, logger and channel are the arguments; nothing has been logged |
| DebugHandler.Debug.Configure | src/fullerite/handler/debug.go:34-37 | interval and max buffer size become the common-parameter coercion of `interval` and `max_buffer_size`, with the current values as defaults; nothing else changes |
| DebugHandler.Debug.EmitMetrics | src/fullerite/handler/debug.go:49-61 | returns true exactly on a non-empty batch; logs the batch size, then either the empty-payload warning or one line per metric in order; the log reports exactly the batch's metrics; name, interval, buffer size, channel and logger are untouched |
| DebugHandler.ConfigureWithEmptyConfig | src/fullerite/handler/debug_test.go:17-24 | a handler built with 12 and 13 and configured with no options keeps 12 and 13 |
| DebugHandler.ConfigureWithStringOptions | src/fullerite/handler/debug_test.go:26-37 | options `"10"` and `"100"` set interval 10 and max buffer size 100 |

## Left out

- Reading the configuration file (`ioutil.ReadFile`), and the error it returns, are
  left out. Interpolation takes the file contents as a string.
- `os.LookupEnv` is modelled as a map from variable names to values.
- Text is a sequence of characters, not bytes. The pattern and all delimiters are ASCII,
  so the scan is the same on either.
- The `regexp` engine is not modelled. The one pattern used is written as a scanner.
- `ReadConfig` and `ReadCollectorConfig` (reading and JSON-decoding a file) are not
  modelled, and neither is `GetCollectorConfig`'s call to `ReadCollectorConfig`.
  Only the path it builds is modelled.
- `Config.GetAsMap`, `Config.GetAsSlice`: JSON decoding of a string is a parameter
  (`decodeJson`) standing for whatever `json.Unmarshal` leaves in the result,
  including an empty result on malformed JSON. Its warning is not modelled.
- `Config.GetAsSlice`: the source panics when a sequence of values holds a non-string.
  The model makes "all elements are strings" a precondition instead.
- `Config.GetAsMap`, `Config.GetAsSlice`: a map or sequence that passes through is, in
  Go, the caller's own object, so later changes through either name are shared. Values
  here cannot alias.
- `Config.GetAsInt`: a float64 is modelled by its real value. NaN, infinities and
  values outside the int range, whose conversion Go leaves implementation-defined, are
  not modelled. `int` is taken to be 64 bits wide.
- `GetAsFloat` and `strconv.ParseFloat` (floating-point parsing) are not modelled.
- All logging is left out (`log.Warn` in the coercions, for instance), except the
  Debug handler's, which is the ghost sequence `output`.
- `DebugHandler.Debug.EmitMetrics`: "the log reports exactly the batch's metrics" holds
  of the model, where a metric line carries the metric itself. In the source it does not
  always hold, for two reasons left out here. First, `debug.go:58` passes the JSON text
  to `fmt.Sprintf` as a format string, so a `%` in a metric's name or dimensions is read
  as a verb (`%b` becomes `%!b(MISSING)`). Second, `debug.go:45` discards the error of
  `json.Marshal`, so a metric whose value is NaN or an infinity logs an empty line. Metric
  values here are reals, which exclude NaN and the infinities.
- `convertToDebug` (JSON rendering of a metric) is left out. A metric line in the log
  carries the metric itself instead of its JSON text.
- `InterpolationSegments.EnvvarTestConfigurationInterpolated`: stated for any `%`-free
  texts between the tokens and stray `%` signs of the configuration's layout.
  `InterpolationSegments.EnvvarTestText` lists the test's own texts, but that they contain
  no `%` is not proved: the fact about that many literal strings is too costly for the
  verifier.
- `DebugHandler.Debug.Configure`: the base handler's `configureCommonParams` is not
  part of this model. Its effect is assumed to be `DebugHandler.CommonParam` on
  `interval` and `max_buffer_size`, as the repository's tests fix it. Any other
  common parameter it may read is not modelled.
- `Run` and the base handler's run loop are left out. They are the channel and timer
  loop, which is concurrency code not part of this model. So are the dispatcher, the
  handler buffering and flush engine, and the Mesos collector, whose implementation is
  not part of this model.
- The channel is modelled only by its identity (an object reference). The logger is
  modelled as the fields it was created with.
