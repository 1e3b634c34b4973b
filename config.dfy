/** The value coercions and the collector configuration path of config/config.go.

    Configuration values arrive loosely typed, as decoded from JSON or written by hand in
    tests; `Value` lists the dynamic types the coercions tell apart. JSON decoding itself
    is not modelled: where the source decodes a string, the decoder is a parameter. */
module Config {
  import opened GoText

  type int32 = x: int | -0x8000_0000 <= x < 0x8000_0000
  type int64 = x: int | MinInt64 <= x <= MaxInt64

  /** A dynamically typed configuration value. `Int` is Go's `int`, 64 bits wide here;
      `Float` is a finite `float64`, modelled by its real value. */
  datatype Value =
    | Null
    | Bool(b: bool)
    | Str(s: string)
    | Int(i: int64)
    | Int32(i32: int32)
    | Int64(i64: int64)
    | Float(f: real)
    | StrMap(sm: map<string, string>)
    | AnyMap(am: map<string, Value>)
    | StrSeq(ss: seq<string>)
    | AnySeq(items: seq<Value>)

  // ---------------------------------------------------------------------------
  // GetCollectorConfig: where a collector's configuration file lives

  /** The directory and the collector name joined by `/`, with `.conf` appended and every
      space, in the name or in the directory, replaced by `_`. */
  function CollectorConfigPath(dir: string, name: string): (path: string)
    ensures |path| == |dir| + |name| + 6
    ensures forall i | 0 <= i < |path| :: path[i] != ' '
    ensures path[|dir|] == '/' && path[|path| - 5..] == ".conf"
    ensures forall i | 0 <= i < |dir| :: path[i] == (if dir[i] == ' ' then '_' else dir[i])
    ensures forall i | 0 <= i < |name| ::
      path[|dir| + 1 + i] == (if name[i] == ' ' then '_' else name[i])
  {
    var joined := dir + "/" + name + ".conf";
    ReplaceCharPointwise(joined, ' ', '_');
    ReplaceAll(joined, " ", "_")
  }

  /** A directory and a name without spaces are joined unchanged. */
  lemma CollectorConfigPathWithoutSpaces(dir: string, name: string)
    requires forall i | 0 <= i < |dir| :: dir[i] != ' '
    requires forall i | 0 <= i < |name| :: name[i] != ' '
    ensures CollectorConfigPath(dir, name) == dir + "/" + name + ".conf"
  {
    var path := CollectorConfigPath(dir, name);
    var joined := dir + "/" + name + ".conf";
    forall i | 0 <= i < |path| ensures path[i] == joined[i] {
      if i < |dir| {
      } else if i == |dir| {
      } else if i < |dir| + 1 + |name| {
        assert path[|dir| + 1 + (i - |dir| - 1)] == name[i - |dir| - 1];
      } else {
        assert path[|path| - 5..][i - (|path| - 5)] == path[i];
      }
    }
  }

  // ---------------------------------------------------------------------------
  // GetAsInt

  /** Go's conversion of a float64 to an integer: the fraction is discarded, rounding
      toward zero. */
  function TruncateTowardZero(x: real): (t: int)
    ensures 0.0 <= x ==> t as real <= x < t as real + 1.0
    ensures x < 0.0 ==> t as real - 1.0 < x <= t as real
  {
    if x >= 0.0 then x.Floor else -((-x).Floor)
  }

  /** Coerces a value to an integer: decimal text is parsed, integers of every width pass
      through, a float is truncated toward zero, and anything else, or text that does not
      parse, yields the default. */
  function GetAsInt(value: Value, default: int): (r: int)
    ensures value.Int? ==> r == value.i
    ensures value.Int32? ==> r == value.i32
    ensures value.Int64? ==> r == value.i64
    ensures value.Float? ==> r == TruncateTowardZero(value.f)
    ensures value.Str? ==> r == match ParseInt64(value.s) case Some(n) => n case None => default
    ensures (value.Null? || value.Bool? || value.StrMap? || value.AnyMap? || value.StrSeq? ||
             value.AnySeq?) ==> r == default
  {
    match value
    case Str(s) =>
      (match ParseInt64(s)
       case Some(n) => n
       case None => default)
    case Int(n) => n
    case Int32(n) => n
    case Int64(n) => n
    case Float(f) => TruncateTowardZero(f)
    case _ => default
  }

  /** Decimal text is read back as the number it prints, when that fits in 64 bits;
      otherwise the default is kept. */
  lemma GetAsIntOfDecimal(n: int, default: int)
    ensures GetAsInt(Str(FormatInt(n)), default) == if MinInt64 <= n <= MaxInt64 then n else default
  {
    ParseFormatRoundTrip(n);
  }

  /** Text with a character that is neither a digit nor a leading sign falls back to the
      default. */
  lemma GetAsIntOfNonNumeric(s: string, i: int, default: int)
    requires 0 <= i < |s| && !IsDigit(s[i])
    requires i == 0 ==> s[0] != '+' && s[0] != '-'
    ensures GetAsInt(Str(s), default) == default
  {
    ParseRejectsNonDigit(s, i);
  }

  /** The cases of config_test.go. */
  lemma GetAsIntExamples()
    ensures GetAsInt(Str("10"), 123) == 10
    ensures GetAsInt(Str("notanint"), 123) == 123
    ensures GetAsInt(Float(12.123), 123) == 12
    ensures GetAsInt(Int(12), 123) == 12
  {
    assert FormatInt(10) == "10" by {
      assert FormatNat(10) == FormatNat(1) + [DigitChar(0)];
    }
    GetAsIntOfDecimal(10, 123);
    GetAsIntOfNonNumeric("notanint", 0, 123);
  }

  // ---------------------------------------------------------------------------
  // GetAsMap and GetAsSlice

  /** Coerces a value to a map of strings. A map of arbitrary values keeps exactly its
      string-valued entries; a map of strings passes through; text is decoded as JSON;
      any other value yields the empty map. */
  method GetAsMap(value: Value, decodeJson: string -> map<string, string>)
    returns (result: map<string, string>)
    ensures value.Str? ==> result == decodeJson(value.s)
    ensures value.AnyMap? ==>
      (forall k :: k in result <==> k in value.am && value.am[k].Str?) &&
      (forall k | k in result :: value.am[k] == Str(result[k]))
    ensures value.StrMap? ==> result == value.sm
    ensures !(value.Str? || value.AnyMap? || value.StrMap?) ==> result == map[]
  {
    result := map[];
    match value {
      case Str(s) =>
        result := decodeJson(s);
      case AnyMap(temp) =>
        var keys := temp.Keys;
        while keys != {}
          invariant keys <= temp.Keys
          invariant forall k :: k in result <==> k in temp && k !in keys && temp[k].Str?
          invariant forall k | k in result :: temp[k] == Str(result[k])
          decreases keys
        {
          var k :| k in keys;
          if temp[k].Str? {
            result := result[k := temp[k].s];
          }
          keys := keys - {k};
        }
      case StrMap(m) =>
        result := m;
      case _ =>
    }
  }

  /** Coerces a value to a sequence of strings. A sequence of arbitrary values, all of
      which the source requires to be strings, is copied element by element in order; a
      sequence of strings passes through; text is decoded as JSON; any other value yields
      the empty sequence. */
  method GetAsSlice(value: Value, decodeJson: string -> seq<string>)
    returns (result: seq<string>)
    requires value.AnySeq? ==> forall i | 0 <= i < |value.items| :: value.items[i].Str?
    ensures value.Str? ==> result == decodeJson(value.s)
    ensures value.StrSeq? ==> result == value.ss
    ensures value.AnySeq? ==>
      |result| == |value.items| &&
      forall i | 0 <= i < |result| :: value.items[i] == Str(result[i])
    ensures !(value.Str? || value.StrSeq? || value.AnySeq?) ==> result == []
  {
    result := [];
    match value {
      case Str(s) =>
        result := decodeJson(s);
      case StrSeq(ss) =>
        result := ss;
      case AnySeq(items) =>
        var a := new string[|items|];
        for i := 0 to |items|
          invariant forall j | 0 <= j < i :: items[j] == Str(a[j])
        {
          a[i] := items[i].s;
        }
        result := a[..];
      case _ =>
    }
  }

  /** The map-of-values case of config_test.go. */
  method GetAsMapOfInterfaceMap() returns (result: map<string, string>)
    ensures result == map["runtimeenv" := "dev", "region" := "uswest1-devc"]
  {
    var temp := map["runtimeenv" := Str("dev"), "region" := Str("uswest1-devc")];
    result := GetAsMap(AnyMap(temp), _ => map[]);
    assert result.Keys == temp.Keys;
  }

  /** The sequence cases of config_test.go: a sequence of strings, and the sequence of
      values that JSON decoding yields for `["a", "b", "c"]`. */
  method GetAsSliceExamples() returns (strings: seq<string>, decoded: seq<string>)
    ensures strings == ["TestCollector1", "TestCollector2"]
    ensures decoded == ["a", "b", "c"]
  {
    strings := GetAsSlice(StrSeq(["TestCollector1", "TestCollector2"]), _ => []);
    decoded := GetAsSlice(AnySeq([Str("a"), Str("b"), Str("c")]), _ => []);
  }
}
