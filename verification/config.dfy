/**
  The service configuration: the Config struct as an explicit field table,
  its printout (MarshalConfig), and the flag/environment/default precedence
  applied when command-line flags are bound to the configuration store
  (BindCobraFlags).
*/
module Config {
  import opened Wrappers
  import opened GoStrings
  import opened Strconv

  // ---------------------------------------------------------------------------
  // The Config struct and its field table
  // ---------------------------------------------------------------------------

  /** The configuration parameters of the server. */
  datatype Config = Config(
    logLevel: Bytes,
    serverAddress: Bytes,
    serverPort: Bytes,
    shutDownTimeout: Int64,
    corsAllowOrigins: seq<Bytes>,
    corsAllowMethods: seq<Bytes>,
    corsAllowHeaders: seq<Bytes>,
    corsExposeHeaders: seq<Bytes>,
    corsAllowCredentials: bool,
    corsMaxAge: Int64)

  /**
    One field of the Config struct with its tags: the Go field name, the
    `mapstructure` key, the flag name, the Go type, the `defaultValue` and
    `help` tags, and the `sensitive` tag ("" when the tag is absent).
  */
  datatype FieldSpec = FieldSpec(
    name: Bytes,
    key: Bytes,
    flag: Bytes,
    typeName: Bytes,
    defaultValue: Bytes,
    help: Bytes,
    sensitive: Bytes)

  /** The fields of Config in declaration order, in place of reflection over its tags. */
  const Schema: seq<FieldSpec> := [
    FieldSpec("LogLevel", "LOG_LEVEL", "log-level", "string", "info",
      "Logging level, can only be one of 'panic', 'fatal', 'error', 'warn', 'info', 'debug', 'trace'.", ""),
    FieldSpec("ServerAddress", "SERVER_ADDRESS", "server-address", "string", "127.0.0.1",
      "The address that the web server will be listening to", ""),
    FieldSpec("ServerPort", "SERVER_PORT", "server-port", "string", "8080",
      "The port that the web server will be listening to", ""),
    FieldSpec("ShutDownTimeout", "SHUTDOWN_TIMEOUT", "shutdown-timeout", "int", "10",
      "The timeout (in seconds) for the server to shut down", ""),
    FieldSpec("CORSAllowOrigins", "CORS_ALLOW_ORIGINS", "cors-allow-origins", "[]string", "*",
      "Allow origins for CORS configuration", ""),
    FieldSpec("CORSAllowMethods", "CORS_ALLOW_METHODS", "cors-allow-methods", "[]string", "GET POST PUT DELETE",
      "List of CORS methods that are allowed", ""),
    FieldSpec("CORSAllowHeaders", "CORS_ALLOW_HEADERS", "cors-allow-headers", "[]string", "Origin content-type",
      "List of CORS headers that are allowed", ""),
    FieldSpec("CORSExposeHeaders", "CORS_EXPOSE_HEADERS", "cors-expose-headers", "[]string", "Content-Length",
      "List of CORS headers that are exposed", ""),
    FieldSpec("CORSAllowCredentials", "CORS_ALLOW_CREDENTIALS", "cors-allow-credentials", "bool", "false",
      "Whether to allow credentials to CORS", ""),
    FieldSpec("CORSMaxAge", "CORS_MAX_AGE", "cors-max-age", "int", "1",
      "Maximum age (in hours) pertaining to CORS configuration", "")
  ]

  /** A field value of one of the four Go types Config uses. */
  datatype Value = BoolValue(b: bool) | IntValue(i: Int64) | StringValue(s: Bytes) | StringsValue(xs: seq<Bytes>)

  /** The value has the Go type named by `typeName`. */
  predicate HasType(v: Value, typeName: Bytes)
  {
    match v
    case BoolValue(_) => typeName == "bool"
    case IntValue(_) => typeName == "int"
    case StringValue(_) => typeName == "string"
    case StringsValue(_) => typeName == "[]string"
  }

  /** The values of a Config in declaration order. */
  function Values(c: Config): (vs: seq<Value>)
    ensures |vs| == |Schema|
    ensures forall i :: 0 <= i < |vs| ==> HasType(vs[i], Schema[i].typeName)
  {
    [StringValue(c.logLevel), StringValue(c.serverAddress), StringValue(c.serverPort),
     IntValue(c.shutDownTimeout), StringsValue(c.corsAllowOrigins), StringsValue(c.corsAllowMethods),
     StringsValue(c.corsAllowHeaders), StringsValue(c.corsExposeHeaders),
     BoolValue(c.corsAllowCredentials), IntValue(c.corsMaxAge)]
  }

  /** One struct field as MarshalConfig sees it: its name, its `sensitive` tag and its value. */
  datatype Field = Field(name: Bytes, sensitive: Bytes, value: Value)

  /** The fields of `c`, named and tagged as the field table says. */
  function Fields(c: Config): (fs: seq<Field>)
    ensures |fs| == |Schema|
    ensures forall i :: 0 <= i < |fs| ==>
      fs[i].name == Schema[i].name && fs[i].sensitive == Schema[i].sensitive
      && HasType(fs[i].value, Schema[i].typeName)
  {
    var vs := Values(c);
    seq(|Schema|, i requires 0 <= i < |Schema| => Field(Schema[i].name, Schema[i].sensitive, vs[i]))
  }

  // ---------------------------------------------------------------------------
  // MarshalConfig
  // ---------------------------------------------------------------------------

  /** `%t` for bools, `%d` for ints, `%s` otherwise; `%s` of a []string is `[a b c]`. */
  function Render(v: Value): Bytes
  {
    match v
    case BoolValue(b) => FormatBool(b)
    case IntValue(i) => Itoa(i)
    case StringValue(s) => s
    case StringsValue(xs) => "[" + Join(xs, " ") + "]"
  }

  /** A field with a non-empty `sensitive` tag is left out of the printout. */
  predicate IsSensitive(f: Field)
  {
    f.sensitive != ""
  }

  /** The text of a printed field, without its line break. */
  function Line(f: Field): Bytes
  {
    f.name + ": " + Render(f.value)
  }

  /** What one field adds to the printout: its line and a line break, or nothing if it is sensitive. */
  function Entry(f: Field): Bytes
  {
    if IsSensitive(f) then "" else Line(f) + "\n"
  }

  /** Each field's contribution, in field order. */
  function Entries(fields: seq<Field>): seq<Bytes>
  {
    seq(|fields|, i requires 0 <= i < |fields| => Entry(fields[i]))
  }

  /** MarshalConfig's loop over the fields: every field's entry written in turn. */
  function MarshalFields(fields: seq<Field>): Bytes
  {
    Concat(Entries(fields))
  }

  /** MarshalConfig */
  function MarshalConfig(c: Config): (out: Bytes)
    ensures out == Unlines(PrintedLines(Fields(c)))
  {
    MarshalIsUnlines(Fields(c));
    MarshalFields(Fields(c))
  }

  /** The printed lines, in field order, of the non-sensitive fields. */
  function PrintedLines(fields: seq<Field>): seq<Bytes>
    decreases |fields|
  {
    if |fields| == 0 then []
    else
      var n := |fields| - 1;
      PrintedLines(fields[..n]) + (if IsSensitive(fields[n]) then [] else [Line(fields[n])])
  }

  /** The printout of a concatenation is the concatenation of the printouts. */
  lemma MarshalAppend(a: seq<Field>, b: seq<Field>)
    ensures MarshalFields(a + b) == MarshalFields(a) + MarshalFields(b)
  {
    assert Entries(a + b) == Entries(a) + Entries(b);
    ConcatAppend(Entries(a), Entries(b));
  }

  /** The printout of a single field is its entry. */
  lemma MarshalOne(f: Field)
    ensures MarshalFields([f]) == Entry(f)
  {
    var es := Entries([f]);
    assert es == [Entry(f)];
    assert es[..0] == [];
    assert Concat(es) == Concat(es[..0]) + es[0];
  }

  /** A sensitive field contributes nothing: removing it leaves the printout unchanged. */
  lemma SensitiveFieldOmitted(a: seq<Field>, f: Field, b: seq<Field>)
    requires IsSensitive(f)
    ensures MarshalFields(a + [f] + b) == MarshalFields(a + b)
  {
    MarshalAppend(a + [f], b);
    MarshalAppend(a, [f]);
    MarshalAppend(a, b);
    MarshalOne(f);
  }

  /** A printed field is its line followed by a line break. */
  lemma PlainFieldPrinted(a: seq<Field>, f: Field, b: seq<Field>)
    requires !IsSensitive(f)
    ensures MarshalFields(a + [f] + b) == MarshalFields(a) + Line(f) + "\n" + MarshalFields(b)
  {
    var x, y := MarshalFields(a), MarshalFields(b);
    var e := Line(f) + "\n";
    MarshalAppend(a + [f], b);
    MarshalAppend(a, [f]);
    MarshalOne(f);
    assert Entry(f) == e;
    assert MarshalFields(a + [f] + b) == x + e + y;
  }

  /** The printout is the printed lines, each followed by a line break. */
  lemma {:induction false} MarshalIsUnlines(fields: seq<Field>)
    ensures MarshalFields(fields) == Unlines(PrintedLines(fields))
    decreases |fields|
  {
    if |fields| > 0 {
      var n := |fields| - 1;
      var f := fields[n];
      MarshalIsUnlines(fields[..n]);
      assert fields[..n] + [f] == fields;
      MarshalAppend(fields[..n], [f]);
      MarshalOne(f);
      var tail := if IsSensitive(f) then [] else [Line(f)];
      UnlinesAppend(PrintedLines(fields[..n]), tail);
      assert Unlines(tail) == Entry(f) by {
        if !IsSensitive(f) {
          assert tail[1..] == [];
        }
      }
    }
  }

  /** The printout is its lines joined by line breaks, ending in one. */
  lemma MarshalIsJoinedLines(fields: seq<Field>)
    ensures MarshalFields(fields) == Join(PrintedLines(fields) + [""], "\n")
  {
    MarshalIsUnlines(fields);
    UnlinesIsJoin(PrintedLines(fields));
  }

  /** No printed field name or value contains a line break. */
  predicate SingleLineFields(fields: seq<Field>)
  {
    forall i :: 0 <= i < |fields| ==> '\n' !in fields[i].name && '\n' !in Render(fields[i].value)
  }

  lemma {:induction false} PrintedLinesAreSingleLines(fields: seq<Field>)
    requires SingleLineFields(fields)
    ensures forall i :: 0 <= i < |PrintedLines(fields)| ==> '\n' !in PrintedLines(fields)[i]
    decreases |fields|
  {
    if |fields| > 0 {
      var n := |fields| - 1;
      assert SingleLineFields(fields[..n]) by {
        forall i | 0 <= i < n ensures '\n' !in fields[..n][i].name && '\n' !in Render(fields[..n][i].value) {
          assert fields[..n][i] == fields[i];
        }
      }
      PrintedLinesAreSingleLines(fields[..n]);
    }
  }

  /**
    Reading the printout back line by line gives exactly one `Name: value`
    line per non-sensitive field, in declaration order, followed by the empty
    text after the final line break: nothing else is printed.
  */
  lemma MarshalLines(fields: seq<Field>)
    requires SingleLineFields(fields)
    ensures Split(MarshalFields(fields), '\n') == PrintedLines(fields) + [""]
  {
    MarshalIsJoinedLines(fields);
    PrintedLinesAreSingleLines(fields);
    SplitJoin(PrintedLines(fields) + [""], '\n');
  }

  /** An int is printed so that Atoi reads the same int back. */
  lemma RenderIntParses(i: Int64)
    ensures Atoi(Render(IntValue(i))) == Some(i)
  {
    AtoiItoa(i);
  }

  /** A bool is printed as `true` or `false`, which ParseBool reads back. */
  lemma RenderBoolParses(b: bool)
    ensures Render(BoolValue(b)) == (if b then "true" else "false")
    ensures ParseBool(Render(BoolValue(b))) == Some(b)
  {
  }

  /**
    A string list is printed in brackets with its elements separated by single
    spaces, so an empty list prints as `[]`, and a non-empty list whose
    elements have no space is recovered by splitting the bracketed text on
    spaces.
  */
  lemma RenderStringsBracketed(xs: seq<Bytes>)
    ensures var r := Render(StringsValue(xs)); |r| >= 2 && r[0] == '[' && r[|r| - 1] == ']'
    ensures xs == [] ==> Render(StringsValue(xs)) == "[]"
    ensures |xs| >= 1 && (forall i :: 0 <= i < |xs| ==> ' ' !in xs[i]) ==>
      var r := Render(StringsValue(xs)); Split(r[1..|r| - 1], ' ') == xs
  {
    var r := Render(StringsValue(xs));
    assert r[1..|r| - 1] == Join(xs, " ");
    if |xs| >= 1 && (forall i :: 0 <= i < |xs| ==> ' ' !in xs[i]) {
      SplitJoin(xs, ' ');
    }
  }

  /** When no field is sensitive, every field is printed, in order. */
  lemma MarshalPlain(fields: seq<Field>)
    requires forall i :: 0 <= i < |fields| ==> !IsSensitive(fields[i])
    ensures MarshalFields(fields) == Unlines(seq(|fields|, i requires 0 <= i < |fields| => Line(fields[i])))
  {
    MarshalIsUnlines(fields);
    PlainPrintedLines(fields);
  }

  /** With no sensitive field, the printed lines are all the fields' lines. */
  lemma {:induction false} PlainPrintedLines(fields: seq<Field>)
    requires forall i :: 0 <= i < |fields| ==> !IsSensitive(fields[i])
    ensures PrintedLines(fields) == seq(|fields|, i requires 0 <= i < |fields| => Line(fields[i]))
    decreases |fields|
  {
    if |fields| > 0 {
      var n := |fields| - 1;
      PlainPrintedLines(fields[..n]);
    }
  }

  /** A configuration with only the log level set, as in the printout test. */
  const LogLevelOnly := Config("info", "", "", 0, [], [], [], [], false, 0)

  /** No field of Config carries a `sensitive` tag. */
  lemma NoSensitiveField(c: Config)
    ensures forall i :: 0 <= i < |Fields(c)| ==> !IsSensitive(Fields(c)[i])
  {
    var fs := Fields(c);
    assert Schema[0].sensitive == "" && Schema[1].sensitive == "" && Schema[2].sensitive == "";
    assert Schema[3].sensitive == "" && Schema[4].sensitive == "" && Schema[5].sensitive == "";
    assert Schema[6].sensitive == "" && Schema[7].sensitive == "" && Schema[8].sensitive == "";
    assert Schema[9].sensitive == "";
  }

  /**
    The printout of a configuration with only the log level set: every field
    on its own line, zero-valued fields printed as empty text, `0`, `[]` and
    `false`.
  */
  lemma MarshalLogLevelOnly()
    ensures MarshalConfig(LogLevelOnly) == Unlines(LogLevelOnlyText)
  {
    var fs := Fields(LogLevelOnly);
    NoSensitiveField(LogLevelOnly);
    MarshalPlain(fs);
    LogLevelOnlyLines();
  }

  /** The lines of ten fields, spelled out one by one. */
  lemma TenLines(fs: seq<Field>)
    requires |fs| == 10
    ensures seq(|fs|, i requires 0 <= i < |fs| => Line(fs[i]))
      == [Line(fs[0]), Line(fs[1]), Line(fs[2]), Line(fs[3]), Line(fs[4]),
          Line(fs[5]), Line(fs[6]), Line(fs[7]), Line(fs[8]), Line(fs[9])]
  {
  }

  lemma LogLevelOnlyLines()
    ensures var fs := Fields(LogLevelOnly);
      seq(|fs|, i requires 0 <= i < |fs| => Line(fs[i])) == LogLevelOnlyText
  {
    TenLines(Fields(LogLevelOnly));
    LogLevelOnlyEachLine();
  }

  lemma LogLevelOnlyEachLine()
    ensures var fs := Fields(LogLevelOnly);
      Line(fs[0]) == "LogLevel: info" && Line(fs[1]) == "ServerAddress: "
      && Line(fs[2]) == "ServerPort: " && Line(fs[3]) == "ShutDownTimeout: 0"
      && Line(fs[4]) == "CORSAllowOrigins: []" && Line(fs[5]) == "CORSAllowMethods: []"
      && Line(fs[6]) == "CORSAllowHeaders: []" && Line(fs[7]) == "CORSExposeHeaders: []"
      && Line(fs[8]) == "CORSAllowCredentials: false" && Line(fs[9]) == "CORSMaxAge: 0"
  {
    var fs := Fields(LogLevelOnly);
    assert Itoa(0) == "0";
    assert Render(StringsValue([])) == "[]" by {
      assert Join([], " ") == "";
      assert "[" + "" + "]" == "[]";
    }
    assert Line(fs[0]) == "LogLevel: info" && Line(fs[1]) == "ServerAddress: "
      && Line(fs[2]) == "ServerPort: " && Line(fs[3]) == "ShutDownTimeout: 0";
    assert Line(fs[4]) == "CORSAllowOrigins: []" && Line(fs[5]) == "CORSAllowMethods: []";
    assert Line(fs[6]) == "CORSAllowHeaders: []" && Line(fs[7]) == "CORSExposeHeaders: []";
  }

  /** The lines the printout test expects, in order. */
  const LogLevelOnlyText: seq<Bytes> := ["LogLevel: info", "ServerAddress: ", "ServerPort: ", "ShutDownTimeout: 0",
      "CORSAllowOrigins: []", "CORSAllowMethods: []", "CORSAllowHeaders: []", "CORSExposeHeaders: []",
      "CORSAllowCredentials: false", "CORSMaxAge: 0"]

  /** A configuration with the log level and three CORS lists set, as in the second printout test. */
  const SeveralFields := Config("info", "", "", 0, ["http://127.0.0.1"], ["PUT"], ["Origin content-type"], [], false, 0)

  /**
    The second printout test: a one-element list prints as its element in
    brackets, even when the element itself contains a space.
  */
  lemma MarshalSeveralFields()
    ensures MarshalConfig(SeveralFields) == Unlines(SeveralFieldsText)
  {
    var fs := Fields(SeveralFields);
    NoSensitiveField(SeveralFields);
    MarshalPlain(fs);
    SeveralFieldsLines();
  }

  lemma SeveralFieldsLines()
    ensures var fs := Fields(SeveralFields);
      seq(|fs|, i requires 0 <= i < |fs| => Line(fs[i])) == SeveralFieldsText
  {
    var fs := Fields(SeveralFields);
    TenLines(fs);
    SeveralFieldsListLines();
    SeveralFieldsScalarLines();
  }

  lemma SeveralFieldsScalarLines()
    ensures var fs := Fields(SeveralFields);
      Line(fs[0]) == "LogLevel: info" && Line(fs[1]) == "ServerAddress: "
      && Line(fs[2]) == "ServerPort: " && Line(fs[3]) == "ShutDownTimeout: 0"
      && Line(fs[7]) == "CORSExposeHeaders: []" && Line(fs[8]) == "CORSAllowCredentials: false"
      && Line(fs[9]) == "CORSMaxAge: 0"
  {
    var fs := Fields(SeveralFields);
    assert Itoa(0) == "0";
    assert Join([], " ") == "";
    assert "[" + "" + "]" == "[]";
  }

  lemma SeveralFieldsListLines()
    ensures var fs := Fields(SeveralFields);
      Line(fs[4]) == "CORSAllowOrigins: [http://127.0.0.1]"
      && Line(fs[5]) == "CORSAllowMethods: [PUT]"
      && Line(fs[6]) == "CORSAllowHeaders: [Origin content-type]"
  {
    SeveralFieldsLists();
    OriginsLine();
    MethodsLine();
    HeadersLine();
  }

  lemma OriginsLine()
    ensures Line(Field("CORSAllowOrigins", "", StringsValue(["http://127.0.0.1"])))
      == "CORSAllowOrigins: [http://127.0.0.1]"
  {
    SingletonListLine("CORSAllowOrigins", "http://127.0.0.1");
  }

  lemma MethodsLine()
    ensures Line(Field("CORSAllowMethods", "", StringsValue(["PUT"]))) == "CORSAllowMethods: [PUT]"
  {
    SingletonListLine("CORSAllowMethods", "PUT");
  }

  lemma HeadersLine()
    ensures Line(Field("CORSAllowHeaders", "", StringsValue(["Origin content-type"])))
      == "CORSAllowHeaders: [Origin content-type]"
  {
    SingletonListLine("CORSAllowHeaders", "Origin content-type");
  }

  lemma SeveralFieldsLists()
    ensures var fs := Fields(SeveralFields);
      fs[4] == Field("CORSAllowOrigins", "", StringsValue(["http://127.0.0.1"]))
      && fs[5] == Field("CORSAllowMethods", "", StringsValue(["PUT"]))
      && fs[6] == Field("CORSAllowHeaders", "", StringsValue(["Origin content-type"]))
  {
  }

  /** A one-element list prints as that element in brackets. */
  lemma SingletonListLine(name: Bytes, x: Bytes)
    ensures Line(Field(name, "", StringsValue([x]))) == name + ": [" + x + "]"
  {
    assert Join([x], " ") == x;
  }

  /** The lines the second printout test expects, in order. */
  const SeveralFieldsText: seq<Bytes> := ["LogLevel: info", "ServerAddress: ", "ServerPort: ", "ShutDownTimeout: 0",
      "CORSAllowOrigins: [http://127.0.0.1]", "CORSAllowMethods: [PUT]", "CORSAllowHeaders: [Origin content-type]",
      "CORSExposeHeaders: []", "CORSAllowCredentials: false", "CORSMaxAge: 0"]

  // ---------------------------------------------------------------------------
  // BindCobraFlags
  // ---------------------------------------------------------------------------

  /**
    The environment-variable key of a flag: a name with a dash has every dash
    replaced by an underscore and is upper-cased; a name without a dash is
    used as it is (not upper-cased).
  */
  function EnvVarName(name: Bytes): (env: Bytes)
    ensures |env| == |name| && '-' !in env
    ensures '-' in name ==> forall i :: 0 <= i < |name| ==>
      env[i] == (if name[i] == '-' then '_' else UpperByte(name[i]))
    ensures '-' !in name ==> env == name
  {
    if '-' in name then ToUpper(ReplaceAll(name, '-', '_')) else name
  }

  /** Deriving the key twice changes nothing: a derived key has no dash left. */
  lemma EnvVarNameIdempotent(name: Bytes)
    ensures EnvVarName(EnvVarName(name)) == EnvVarName(name)
  {
  }

  /**
    For every field of Config, the key derived from its flag name is its
    `mapstructure` key, so the values bound from flags are the ones the
    configuration is decoded from.
  */
  lemma EnvVarNamesMatchKeys()
    ensures forall i :: 0 <= i < |Schema| ==> EnvVarName(Schema[i].flag) == Schema[i].key
  {
    forall i | 0 <= i < |Schema| ensures EnvVarName(Schema[i].flag) == Schema[i].key {
      FieldKeyDerived(i);
    }
  }

  lemma FieldKeyDerived(i: nat)
    requires i < |Schema|
    ensures EnvVarName(Schema[i].flag) == Schema[i].key
  {
    if i == 0 {
      assert Schema[0].flag == "log-level" && Schema[0].key == "LOG_LEVEL";
      LogLevelKey();
    } else if i == 1 {
      assert Schema[1].flag == "server-address" && Schema[1].key == "SERVER_ADDRESS";
      ServerAddressKey();
    } else if i == 2 {
      assert Schema[2].flag == "server-port" && Schema[2].key == "SERVER_PORT";
      ServerPortKey();
    } else if i == 3 {
      assert Schema[3].flag == "shutdown-timeout" && Schema[3].key == "SHUTDOWN_TIMEOUT";
      ShutDownTimeoutKey();
    } else if i == 4 {
      assert Schema[4].flag == "cors-allow-origins" && Schema[4].key == "CORS_ALLOW_ORIGINS";
      CORSAllowOriginsKey();
    } else if i == 5 {
      assert Schema[5].flag == "cors-allow-methods" && Schema[5].key == "CORS_ALLOW_METHODS";
      CORSAllowMethodsKey();
    } else if i == 6 {
      assert Schema[6].flag == "cors-allow-headers" && Schema[6].key == "CORS_ALLOW_HEADERS";
      CORSAllowHeadersKey();
    } else if i == 7 {
      assert Schema[7].flag == "cors-expose-headers" && Schema[7].key == "CORS_EXPOSE_HEADERS";
      CORSExposeHeadersKey();
    } else if i == 8 {
      assert Schema[8].flag == "cors-allow-credentials" && Schema[8].key == "CORS_ALLOW_CREDENTIALS";
      CORSAllowCredentialsKey();
    } else {
      assert Schema[9].flag == "cors-max-age" && Schema[9].key == "CORS_MAX_AGE";
      CORSMaxAgeKey();
    }
  }

  lemma LogLevelKey()
    ensures EnvVarName("log-level") == "LOG_LEVEL"
  {
    var f: Bytes := "log-level";
    var k: Bytes := "LOG_LEVEL";
    assert f[3] == '-';
    forall j | 0 <= j < |f| ensures EnvVarName(f)[j] == k[j] {
    }
  }

  lemma ServerAddressKey()
    ensures EnvVarName("server-address") == "SERVER_ADDRESS"
  {
    var f: Bytes := "server-address";
    var k: Bytes := "SERVER_ADDRESS";
    assert f[6] == '-';
    forall j | 0 <= j < |f| ensures EnvVarName(f)[j] == k[j] {
    }
  }

  lemma ServerPortKey()
    ensures EnvVarName("server-port") == "SERVER_PORT"
  {
    var f: Bytes := "server-port";
    var k: Bytes := "SERVER_PORT";
    assert f[6] == '-';
    forall j | 0 <= j < |f| ensures EnvVarName(f)[j] == k[j] {
    }
  }

  lemma ShutDownTimeoutKey()
    ensures EnvVarName("shutdown-timeout") == "SHUTDOWN_TIMEOUT"
  {
    var f: Bytes := "shutdown-timeout";
    var k: Bytes := "SHUTDOWN_TIMEOUT";
    assert f[8] == '-';
    forall j | 0 <= j < |f| ensures EnvVarName(f)[j] == k[j] {
    }
  }

  lemma CORSAllowOriginsKey()
    ensures EnvVarName("cors-allow-origins") == "CORS_ALLOW_ORIGINS"
  {
    var f: Bytes := "cors-allow-origins";
    var k: Bytes := "CORS_ALLOW_ORIGINS";
    assert f[4] == '-';
    forall j | 0 <= j < |f| ensures EnvVarName(f)[j] == k[j] {
    }
  }

  lemma CORSAllowMethodsKey()
    ensures EnvVarName("cors-allow-methods") == "CORS_ALLOW_METHODS"
  {
    var f: Bytes := "cors-allow-methods";
    var k: Bytes := "CORS_ALLOW_METHODS";
    assert f[4] == '-';
    forall j | 0 <= j < |f| ensures EnvVarName(f)[j] == k[j] {
    }
  }

  lemma CORSAllowHeadersKey()
    ensures EnvVarName("cors-allow-headers") == "CORS_ALLOW_HEADERS"
  {
    var f: Bytes := "cors-allow-headers";
    var k: Bytes := "CORS_ALLOW_HEADERS";
    assert f[4] == '-';
    forall j | 0 <= j < |f| ensures EnvVarName(f)[j] == k[j] {
    }
  }

  lemma CORSExposeHeadersKey()
    ensures EnvVarName("cors-expose-headers") == "CORS_EXPOSE_HEADERS"
  {
    var f: Bytes := "cors-expose-headers";
    var k: Bytes := "CORS_EXPOSE_HEADERS";
    assert f[4] == '-';
    forall j | 0 <= j < |f| ensures EnvVarName(f)[j] == k[j] {
    }
  }

  lemma CORSAllowCredentialsKey()
    ensures EnvVarName("cors-allow-credentials") == "CORS_ALLOW_CREDENTIALS"
  {
    var f: Bytes := "cors-allow-credentials";
    var k: Bytes := "CORS_ALLOW_CREDENTIALS";
    assert f[4] == '-';
    forall j | 0 <= j < |f| ensures EnvVarName(f)[j] == k[j] {
    }
  }

  lemma CORSMaxAgeKey()
    ensures EnvVarName("cors-max-age") == "CORS_MAX_AGE"
  {
    var f: Bytes := "cors-max-age";
    var k: Bytes := "CORS_MAX_AGE";
    assert f[4] == '-';
    forall j | 0 <= j < |f| ensures EnvVarName(f)[j] == k[j] {
    }
  }

  /** The state of one command-line flag as pflag reports it. */
  datatype FlagState = FlagState(name: Bytes, changed: bool, value: Bytes, defValue: Bytes)

  /** The configuration store: a key is "set" exactly when it has a value here. */
  type Store = map<Bytes, Bytes>

  /** The value a flag's key ends up with: the flag if given, else what is already set, else the default. */
  function Resolved(store: Store, f: FlagState): Bytes
  {
    var key := EnvVarName(f.name);
    if f.changed then f.value else if key in store then store[key] else f.defValue
  }

  /**
    One flag's turn in BindCobraFlags after its key was bound: only the
    flag's key may change, and it ends up set to the resolved value.
  */
  function ApplyFlag(store: Store, f: FlagState): (r: Store)
    ensures EnvVarName(f.name) in r && r[EnvVarName(f.name)] == Resolved(store, f)
    ensures forall k :: k != EnvVarName(f.name) ==> (k in r <==> k in store)
    ensures forall k :: k != EnvVarName(f.name) && k in store ==> r[k] == store[k]
  {
    var key := EnvVarName(f.name);
    if f.changed then store[key := f.value]
    else if key !in store then store[key := f.defValue]
    else store
  }

  /** The error BindCobraFlags reports for a flag whose key could not be bound. */
  function BindErrorMessage(name: Bytes, cause: Bytes): Bytes
  {
    "error when binding flag " + name + " to its corresponding env var\n" + cause
  }

  /**
    Binding a key to its environment variable: None on success, otherwise the
    error text. The store's own binding code is not part of this model.
  */
  type Binder = Bytes -> Option<Bytes>

  /**
    BindCobraFlags over the flags in visiting order. A failed binding skips
    that flag's value but does not stop the visit (the callback's `return`
    only ends that flag's turn), and the error of the last failing flag is
    the one reported.
  */
  function BindCobraFlags(flags: seq<FlagState>, store: Store, bind: Binder): (Store, Option<Bytes>)
    decreases |flags|
  {
    if |flags| == 0 then (store, None)
    else
      var n := |flags| - 1;
      var (s, err) := BindCobraFlags(flags[..n], store, bind);
      var f := flags[n];
      match bind(EnvVarName(f.name))
      case Some(cause) => (s, Some(BindErrorMessage(f.name, cause)))
      case None => (ApplyFlag(s, f), err)
  }

  /** `key` is the derived key of none of the flags. */
  predicate NotAFlagKey(flags: seq<FlagState>, key: Bytes)
  {
    forall j :: 0 <= j < |flags| ==> EnvVarName(flags[j].name) != key
  }

  /** Keys that belong to no flag are left exactly as they were. */
  lemma {:induction false} BindLeavesOtherKeys(flags: seq<FlagState>, store: Store, bind: Binder, key: Bytes)
    requires NotAFlagKey(flags, key)
    ensures var r := BindCobraFlags(flags, store, bind).0;
      (key in r <==> key in store) && (key in store ==> r[key] == store[key])
    decreases |flags|
  {
    if |flags| > 0 {
      var n := |flags| - 1;
      assert NotAFlagKey(flags[..n], key) by {
        forall j | 0 <= j < n ensures EnvVarName(flags[..n][j].name) != key {
          assert flags[..n][j] == flags[j];
        }
      }
      BindLeavesOtherKeys(flags[..n], store, bind, key);
      assert EnvVarName(flags[n].name) != key;
    }
  }

  /** No two flags derive the same key. */
  predicate DistinctKeys(flags: seq<FlagState>)
  {
    forall i, j :: 0 <= i < j < |flags| ==> EnvVarName(flags[i].name) != EnvVarName(flags[j].name)
  }

  /**
    Precedence: when flags derive distinct keys, each flag whose key binds
    ends up with its resolved value (the flag's value if it was changed on
    the command line, else a value already set, else the flag's default),
    whether or not other flags failed to bind.
  */
  lemma {:induction false} BindResolvesFlag(flags: seq<FlagState>, store: Store, bind: Binder, i: int)
    requires DistinctKeys(flags) && 0 <= i < |flags|
    requires bind(EnvVarName(flags[i].name)).None?
    ensures var r := BindCobraFlags(flags, store, bind).0;
      EnvVarName(flags[i].name) in r && r[EnvVarName(flags[i].name)] == Resolved(store, flags[i])
    decreases |flags|
  {
    var n := |flags| - 1;
    var prefix := flags[..n];
    var key := EnvVarName(flags[i].name);
    if i == n {
      assert NotAFlagKey(prefix, key) by {
        forall j | 0 <= j < n ensures EnvVarName(prefix[j].name) != key {
          assert prefix[j] == flags[j];
        }
      }
      BindLeavesOtherKeys(prefix, store, bind, key);
    } else {
      assert DistinctKeys(prefix) by {
        forall a, b | 0 <= a < b < n ensures EnvVarName(prefix[a].name) != EnvVarName(prefix[b].name) {
          assert prefix[a] == flags[a] && prefix[b] == flags[b];
        }
      }
      assert prefix[i] == flags[i];
      BindResolvesFlag(prefix, store, bind, i);
      assert EnvVarName(flags[n].name) != key;
    }
  }

  /** Every flag's key binds. */
  predicate AllBind(flags: seq<FlagState>, bind: Binder)
  {
    forall j :: 0 <= j < |flags| ==> bind(EnvVarName(flags[j].name)).None?
  }

  /** An error is reported exactly when some flag's key fails to bind. */
  lemma {:induction false} BindFailsIffSomeBindFails(flags: seq<FlagState>, store: Store, bind: Binder)
    ensures AllBind(flags, bind) <==> BindCobraFlags(flags, store, bind).1.None?
    decreases |flags|
  {
    if |flags| > 0 {
      var n := |flags| - 1;
      var prefix := flags[..n];
      BindFailsIffSomeBindFails(prefix, store, bind);
      assert forall j :: 0 <= j < n ==> prefix[j] == flags[j];
    }
  }

  /**
    The reported error is that of the last flag whose key fails to bind:
    later flags whose keys bind do not clear it.
  */
  lemma {:induction false} BindErrorIsLastFailure(flags: seq<FlagState>, store: Store, bind: Binder, j: int)
    requires 0 <= j < |flags| && bind(EnvVarName(flags[j].name)).Some?
    requires AllBind(flags[j + 1..], bind)
    ensures BindCobraFlags(flags, store, bind).1
      == Some(BindErrorMessage(flags[j].name, bind(EnvVarName(flags[j].name)).value))
    decreases |flags|
  {
    var n := |flags| - 1;
    if j < n {
      var prefix := flags[..n];
      assert flags[j + 1..][n - j - 1] == flags[n];
      assert AllBind(prefix[j + 1..], bind) by {
        var tail := prefix[j + 1..];
        forall m | 0 <= m < |tail| ensures bind(EnvVarName(tail[m].name)).None? {
          assert tail[m] == flags[j + 1..][m];
        }
      }
      assert prefix[j] == flags[j];
      BindErrorIsLastFailure(prefix, store, bind, j);
    }
  }
}
