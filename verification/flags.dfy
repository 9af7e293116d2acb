/**
  Command-line flags built from the configuration's field table
  (pkg/config/flags.go): each field becomes a pflag flag of its Go type,
  whose default is parsed from the field's `defaultValue` tag, and the flag
  is bound to the configuration store under its name.
*/
module Flags {
  import opened Wrappers
  import opened GoStrings
  import opened Strconv
  import Config
  import Envs

  /** A flag's typed default value. */
  datatype FlagDefault = IntDefault(i: Int64) | BoolDefault(b: bool) | StringDefault(s: Bytes) | StringsDefault(xs: seq<Bytes>)

  /** A registered flag: its name, its default and its help text. */
  datatype Flag = Flag(name: Bytes, value: FlagDefault, help: Bytes)

  /** A pflag FlagSet, in registration order. */
  type FlagSet = seq<Flag>

  /** The Go type names AddCobraFlag knows how to turn into a flag. */
  predicate KnownType(typeName: Bytes)
  {
    typeName == "int" || typeName == "bool" || typeName == "string" || typeName == "[]string"
  }

  /**
    The default a flag of type `typeName` gets from the tag text `dv`: an
    unparsable int or bool default silently becomes 0 or false, and a
    []string default is split at single spaces.
  */
  function DefaultFor(typeName: Bytes, dv: Bytes): (d: Option<FlagDefault>)
    ensures d.Some? <==> KnownType(typeName)
    ensures typeName == "int" ==>
      d.value.IntDefault? && (Atoi(dv).Some? ==> d.value.i == Atoi(dv).value)
    ensures typeName == "bool" ==>
      d.value.BoolDefault? && (ParseBool(dv).Some? ==> d.value.b == ParseBool(dv).value) && (ParseBool(dv).None? ==> !d.value.b)
    ensures typeName == "string" ==> d == Some(StringDefault(dv))
    ensures typeName == "[]string" ==>
      d.value.StringsDefault? && Join(d.value.xs, " ") == dv && |d.value.xs| == Count(dv, ' ') + 1
      && forall i :: 0 <= i < |d.value.xs| ==> ' ' !in d.value.xs[i]
  {
    if typeName == "int" then
      Some(IntDefault(ParseInt(dv).value))
    else if typeName == "bool" then
      Some(BoolDefault(match ParseBool(dv) case Some(b) => b case None => false))
    else if typeName == "string" then
      Some(StringDefault(dv))
    else if typeName == "[]string" then
      Some(StringsDefault(Split(dv, ' ')))
    else None
  }

  /** The text pflag keeps as a flag's `DefValue`: how its default prints. */
  function DefValue(d: FlagDefault): Bytes
  {
    match d
    case IntDefault(i) => Itoa(i)
    case BoolDefault(b) => FormatBool(b)
    case StringDefault(s) => s
    case StringsDefault(xs) => Envs.BracketedList(xs)
  }

  /** The flag registered under `name`, if any. */
  function Lookup(fs: FlagSet, name: Bytes): (r: Option<Flag>)
    ensures r.None? <==> forall i :: 0 <= i < |fs| ==> fs[i].name != name
    ensures r.Some? ==> r.value.name == name && r.value in fs
  {
    if |fs| == 0 then None
    else if fs[0].name == name then Some(fs[0])
    else Lookup(fs[1..], name)
  }

  /** Why binding the flags stops. */
  datatype CmdError =
    | Redefined(name: Bytes)   // pflag panics when a flag name is defined twice in one set
    | NilFlag(key: Bytes)      // the store refuses to bind a flag that does not exist

  /**
    An int default that Atoi rejects is not an error: the flag keeps the int
    Atoi returned with its error, the nearest bound for a decimal beyond the
    int64 range and otherwise 0, or a bound when leading digits overflow.
  */
  lemma IntDefaultOnError(dv: Bytes)
    ensures var i := DefaultFor("int", dv).value.i;
      && (IsDecimal(dv) && DecimalValue(dv) > MaxInt64 ==> i == MaxInt64)
      && (IsDecimal(dv) && DecimalValue(dv) < MinInt64 ==> i == MinInt64)
      && (!IsDecimal(dv) ==> i in {0, MinInt64, MaxInt64})
  {
    ParseIntOnError(dv);
  }

  /**
    AddCobraFlag: a flag of a known type is added with its parsed default; a
    name already in the set panics; an unknown type adds nothing.
  */
  function AddCobraFlag(fs: FlagSet, typeName: Bytes, name: Bytes, dv: Bytes, help: Bytes): (r: Result<FlagSet, CmdError>)
    ensures !KnownType(typeName) ==> r == Ok(fs)
    ensures KnownType(typeName) && Lookup(fs, name).Some? ==> r == Err(Redefined(name))
    ensures KnownType(typeName) && Lookup(fs, name).None? ==>
      r.Ok? && Lookup(r.value, name) == Some(Flag(name, DefaultFor(typeName, dv).value, help))
      && forall n :: n != name ==> Lookup(r.value, n) == Lookup(fs, n)
  {
    match DefaultFor(typeName, dv)
    case None => Ok(fs)
    case Some(d) =>
      if Lookup(fs, name).Some? then Err(Redefined(name))
      else
        LookupAppend(fs, Flag(name, d, help));
        Ok(fs + [Flag(name, d, help)])
  }

  /** Appending a flag makes it findable and leaves every other name's lookup alone. */
  lemma {:induction false} LookupAppend(fs: FlagSet, f: Flag)
    requires Lookup(fs, f.name).None?
    ensures Lookup(fs + [f], f.name) == Some(f)
    ensures forall n :: n != f.name ==> Lookup(fs + [f], n) == Lookup(fs, n)
    decreases |fs|
  {
    if |fs| > 0 {
      assert (fs + [f])[1..] == fs[1..] + [f];
      LookupAppend(fs[1..], f);
    }
  }

  /** A cobra command's own flag sets. */
  datatype Command = Command(hasParent: bool, persistent: FlagSet, local: FlagSet)

  /** The set BindCobraFlagsToCmd adds to: persistent flags on a root command, local flags otherwise. */
  function Target(cmd: Command): FlagSet
  {
    if cmd.hasParent then cmd.local else cmd.persistent
  }

  /** `cmd` with its target set replaced by `fs`. */
  function WithTarget(cmd: Command, fs: FlagSet): (r: Command)
    ensures Target(r) == fs && r.hasParent == cmd.hasParent
    ensures cmd.hasParent ==> r.persistent == cmd.persistent
    ensures !cmd.hasParent ==> r.local == cmd.local
  {
    if cmd.hasParent then cmd.(local := fs) else cmd.(persistent := fs)
  }

  /** The store's flag bindings, by key. */
  type Bindings = map<Bytes, Flag>

  /** Binding `key` to the flag found for it: a missing flag is an error. */
  function BindPFlag(bound: Bindings, key: Bytes, flag: Option<Flag>): (r: Result<Bindings, CmdError>)
    ensures flag.None? <==> r == Err(NilFlag(key))
    ensures flag.Some? ==>
      r.Ok? && key in r.value && r.value[key] == flag.value
      && forall k :: k != key ==> (k in r.value <==> k in bound) && (k in bound ==> r.value[k] == bound[k])
  {
    match flag
    case None => Err(NilFlag(key))
    case Some(f) => Ok(bound[key := f])
  }

  /** The command and the store's bindings as the fields are processed. */
  datatype Registry = Registry(cmd: Command, bound: Bindings)

  /** One field's turn: create its flag in the target set, then bind it under its name. */
  function BindField(reg: Registry, spec: Config.FieldSpec): Result<Registry, CmdError>
  {
    match AddCobraFlag(Target(reg.cmd), spec.typeName, spec.flag, spec.defaultValue, spec.help)
    case Err(e) => Err(e)
    case Ok(fs) =>
      match BindPFlag(reg.bound, spec.flag, Lookup(fs, spec.flag))
      case Err(e) => Err(e)
      case Ok(bound) => Ok(Registry(WithTarget(reg.cmd, fs), bound))
  }

  /** The fields in declaration order; the first error ends the loop. */
  function BindFields(reg: Registry, specs: seq<Config.FieldSpec>): Result<Registry, CmdError>
    decreases |specs|
  {
    if |specs| == 0 then Ok(reg)
    else
      match BindField(reg, specs[0])
      case Err(e) => Err(e)
      case Ok(next) => BindFields(next, specs[1..])
  }

  /** BindCobraFlagsToCmd */
  function BindCobraFlagsToCmd(cmd: Command, specs: seq<Config.FieldSpec>, bound: Bindings): (r: Result<Registry, CmdError>)
    ensures CanBind(Registry(cmd, bound), specs) ==> r.Ok? && Target(r.value.cmd) == Target(cmd) + FlagsOf(specs)
  {
    var reg := Registry(cmd, bound);
    if CanBind(reg, specs) then
      BindFieldsSucceeds(reg, specs);
      BindFields(reg, specs)
    else
      BindFields(reg, specs)
  }

  // ---------------------------------------------------------------------------
  // Properties
  // ---------------------------------------------------------------------------

  /** The flag a field of known type gets. */
  function FlagOf(spec: Config.FieldSpec): Flag
    requires KnownType(spec.typeName)
  {
    Flag(spec.flag, DefaultFor(spec.typeName, spec.defaultValue).value, spec.help)
  }

  predicate AllKnown(specs: seq<Config.FieldSpec>)
  {
    forall i :: 0 <= i < |specs| ==> KnownType(specs[i].typeName)
  }

  predicate DistinctFlags(specs: seq<Config.FieldSpec>)
  {
    forall i, j :: 0 <= i < j < |specs| ==> specs[i].flag != specs[j].flag
  }

  /** None of the fields' flag names is already taken in `fs`. */
  predicate Fresh(fs: FlagSet, specs: seq<Config.FieldSpec>)
  {
    forall i :: 0 <= i < |specs| ==> Lookup(fs, specs[i].flag).None?
  }

  /** The flags of known-type fields, in order. */
  function FlagsOf(specs: seq<Config.FieldSpec>): (fs: FlagSet)
    requires AllKnown(specs)
    ensures |fs| == |specs|
    ensures forall i :: 0 <= i < |specs| ==> fs[i] == FlagOf(specs[i])
  {
    seq(|specs|, i requires 0 <= i < |specs| => FlagOf(specs[i]))
  }

  /** Adding a field binds its flag to the flag created for it. */
  lemma AddedBindsFlag(reg: Registry, spec: Config.FieldSpec)
    requires KnownType(spec.typeName)
    ensures spec.flag in Added(reg, spec).bound && Added(reg, spec).bound[spec.flag] == FlagOf(spec)
  {
  }

  /** With distinct flags, no later field shares the first field's flag. */
  lemma FirstFlagUnique(specs: seq<Config.FieldSpec>)
    requires |specs| > 0 && DistinctFlags(specs)
    ensures forall m :: 0 <= m < |specs[1..]| ==> specs[1..][m].flag != specs[0].flag
  {
    forall m | 0 <= m < |specs[1..]| ensures specs[1..][m].flag != specs[0].flag {
      assert specs[1..][m] == specs[m + 1];
    }
  }

  /** Every field has a known type and a name of its own that the target set does not hold yet. */
  predicate CanBind(reg: Registry, specs: seq<Config.FieldSpec>)
  {
    AllKnown(specs) && DistinctFlags(specs) && Fresh(Target(reg.cmd), specs)
  }

  /** The registry after a field of known type has been added and bound. */
  function Added(reg: Registry, spec: Config.FieldSpec): Registry
    requires KnownType(spec.typeName)
  {
    Registry(WithTarget(reg.cmd, Target(reg.cmd) + [FlagOf(spec)]), reg.bound[spec.flag := FlagOf(spec)])
  }

  /** Under CanBind the first field is added and bound, and CanBind holds for the rest. */
  lemma FirstFieldBinds(reg: Registry, specs: seq<Config.FieldSpec>)
    requires |specs| > 0 && CanBind(reg, specs)
    ensures BindFields(reg, specs) == BindFields(Added(reg, specs[0]), specs[1..])
    ensures CanBind(Added(reg, specs[0]), specs[1..])
  {
    var spec := specs[0];
    var fs := Target(reg.cmd);
    var f := FlagOf(spec);
    LookupAppend(fs, f);
    assert BindField(reg, spec) == Ok(Added(reg, spec));
    var rest := specs[1..];
    assert Fresh(fs + [f], rest) by {
      forall i | 0 <= i < |rest| ensures Lookup(fs + [f], rest[i].flag).None? {
        assert rest[i] == specs[i + 1];
      }
    }
    assert DistinctFlags(rest) by {
      forall i, j | 0 <= i < j < |rest| ensures rest[i].flag != rest[j].flag {
        assert rest[i] == specs[i + 1] && rest[j] == specs[j + 1];
      }
    }
  }

  /**
    When every field has a known type and its own fresh name, binding
    succeeds, the target set gains exactly the fields' flags, in order, and
    the other set and the parent status are untouched.
  */
  lemma BindFieldsSucceeds(reg: Registry, specs: seq<Config.FieldSpec>)
    requires CanBind(reg, specs)
    ensures var r := BindFields(reg, specs);
      r.Ok? && Target(r.value.cmd) == Target(reg.cmd) + FlagsOf(specs)
      && r.value.cmd.hasParent == reg.cmd.hasParent
      && (reg.cmd.hasParent ==> r.value.cmd.persistent == reg.cmd.persistent)
      && (!reg.cmd.hasParent ==> r.value.cmd.local == reg.cmd.local)
  {
    BindFieldsTarget(reg, specs);
    BindFieldsKeepsOtherSet(reg, specs);
  }

  lemma {:induction false} BindFieldsTarget(reg: Registry, specs: seq<Config.FieldSpec>)
    requires CanBind(reg, specs)
    ensures BindFields(reg, specs).Ok?
    ensures Target(BindFields(reg, specs).value.cmd) == Target(reg.cmd) + FlagsOf(specs)
    decreases |specs|
  {
    if |specs| > 0 {
      var fs := Target(reg.cmd);
      FlagsOfCons(specs);
      AppendAssociative(fs, [FlagOf(specs[0])], FlagsOf(specs[1..]));
      FirstFieldBinds(reg, specs);
      var next := Added(reg, specs[0]);
      assert Target(next.cmd) == fs + [FlagOf(specs[0])];
      BindFieldsTarget(next, specs[1..]);
    } else {
      assert FlagsOf(specs) == [];
      assert Target(reg.cmd) + [] == Target(reg.cmd);
    }
  }

  lemma {:induction false} BindFieldsKeepsOtherSet(reg: Registry, specs: seq<Config.FieldSpec>)
    requires CanBind(reg, specs)
    ensures var r := BindFields(reg, specs);
      r.Ok? && r.value.cmd.hasParent == reg.cmd.hasParent
      && (reg.cmd.hasParent ==> r.value.cmd.persistent == reg.cmd.persistent)
      && (!reg.cmd.hasParent ==> r.value.cmd.local == reg.cmd.local)
    decreases |specs|
  {
    if |specs| > 0 {
      FirstFieldBinds(reg, specs);
      BindFieldsKeepsOtherSet(Added(reg, specs[0]), specs[1..]);
    }
  }

  lemma AppendAssociative(a: FlagSet, b: FlagSet, c: FlagSet)
    ensures a + b + c == a + (b + c)
  {
  }

  lemma FlagsOfCons(specs: seq<Config.FieldSpec>)
    requires |specs| > 0 && AllKnown(specs)
    ensures AllKnown(specs[1..]) && FlagsOf(specs) == [FlagOf(specs[0])] + FlagsOf(specs[1..])
  {
    assert forall i :: 0 <= i < |specs| - 1 ==> specs[1..][i] == specs[i + 1];
  }

  /** Under the same conditions every field's name ends up bound to its flag. */
  lemma BindFieldsBindsEach(reg: Registry, specs: seq<Config.FieldSpec>, i: int)
    requires CanBind(reg, specs) && 0 <= i < |specs|
    ensures BindFields(reg, specs).Ok? && Bound(BindFields(reg, specs).value, specs[i].flag, FlagOf(specs[i]))
  {
    BindFieldsBindsAll(reg, specs);
  }

  lemma {:induction false} BindFieldsBindsAll(reg: Registry, specs: seq<Config.FieldSpec>)
    requires CanBind(reg, specs)
    ensures BindFields(reg, specs).Ok?
    ensures forall i :: 0 <= i < |specs| ==> Bound(BindFields(reg, specs).value, specs[i].flag, FlagOf(specs[i]))
    decreases |specs|
  {
    if |specs| > 0 {
      BindFieldsBindsFirst(reg, specs);
      FirstFieldBinds(reg, specs);
      var r := BindFields(reg, specs).value;
      BindFieldsBindsAll(Added(reg, specs[0]), specs[1..]);
      RestBound(r, specs);
    } else {
      BindFieldsTarget(reg, specs);
    }
  }

  /** A binding for the first field and for each later one is a binding for every field. */
  lemma RestBound(r: Registry, specs: seq<Config.FieldSpec>)
    requires |specs| > 0 && AllKnown(specs)
    requires Bound(r, specs[0].flag, FlagOf(specs[0]))
    requires forall i :: 0 <= i < |specs[1..]| ==> Bound(r, specs[1..][i].flag, FlagOf(specs[1..][i]))
    ensures forall i :: 0 <= i < |specs| ==> Bound(r, specs[i].flag, FlagOf(specs[i]))
  {
    forall i | 0 < i < |specs| ensures Bound(r, specs[i].flag, FlagOf(specs[i])) {
      assert specs[1..][i - 1] == specs[i];
    }
  }

  /** `key` is bound to `f` in the registry. */
  predicate Bound(reg: Registry, key: Bytes, f: Flag)
  {
    key in reg.bound && reg.bound[key] == f
  }

  /** The first field's flag stays bound to it while the later fields are bound. */
  lemma BindFieldsBindsFirst(reg: Registry, specs: seq<Config.FieldSpec>)
    requires CanBind(reg, specs) && 0 < |specs|
    ensures var r := BindFields(reg, specs);
      r.Ok? && specs[0].flag in r.value.bound && r.value.bound[specs[0].flag] == FlagOf(specs[0])
  {
    FirstFieldBinds(reg, specs);
    var next := Added(reg, specs[0]);
    FirstFlagUnique(specs);
    AddedBindsFlag(reg, specs[0]);
    BindFieldsKeepsOthers(next, specs[1..], specs[0].flag);
  }

  /** Under the same conditions no binding other than the fields' names changes. */
  lemma {:induction false} BindFieldsKeepsOthers(reg: Registry, specs: seq<Config.FieldSpec>, k: Bytes)
    requires CanBind(reg, specs)
    requires forall i :: 0 <= i < |specs| ==> specs[i].flag != k
    ensures var r := BindFields(reg, specs);
      r.Ok? && (k in r.value.bound <==> k in reg.bound) && (k in reg.bound ==> r.value.bound[k] == reg.bound[k])
    decreases |specs|
  {
    if |specs| > 0 {
      FirstFieldBinds(reg, specs);
      BindFieldsSucceeds(Added(reg, specs[0]), specs[1..]);
      var rest := specs[1..];
      assert specs[0].flag != k;
      assert forall m :: 0 <= m < |rest| ==> rest[m].flag != k by {
        forall m | 0 <= m < |rest| ensures rest[m].flag != k {
          assert rest[m] == specs[m + 1];
        }
      }
      BindFieldsKeepsOthers(Added(reg, specs[0]), rest, k);
    }
  }

  /**
    The first field of unknown type ends the loop with the nil-flag error
    for its name, provided its name was not already taken; the fields before
    it were processed as usual.
  */
  lemma {:induction false} BindFieldsStopsAtUnknown(reg: Registry, specs: seq<Config.FieldSpec>, k: int)
    requires 0 <= k < |specs| && !KnownType(specs[k].typeName) && AllKnown(specs[..k])
    requires DistinctFlags(specs[..k + 1]) && Fresh(Target(reg.cmd), specs[..k + 1])
    ensures BindFields(reg, specs) == Err(NilFlag(specs[k].flag))
    decreases k
  {
    var spec := specs[0];
    var fs := Target(reg.cmd);
    assert specs[..k + 1][0] == spec;
    if k == 0 {
      assert Lookup(fs, spec.flag).None?;
    } else {
      assert specs[..k][0] == spec;
      var f := FlagOf(spec);
      LookupAppend(fs, f);
      var next := Registry(WithTarget(reg.cmd, fs + [f]), reg.bound[spec.flag := f]);
      assert BindField(reg, spec) == Ok(next);
      var rest := specs[1..];
      assert rest[..k] == specs[1..k + 1];
      assert rest[..k - 1] == specs[1..k];
      assert AllKnown(rest[..k - 1]) by {
        var before := rest[..k - 1];
        forall i | 0 <= i < |before| ensures KnownType(before[i].typeName) {
          assert before[i] == specs[..k][i + 1];
        }
      }
      assert DistinctFlags(rest[..k]) by {
        forall i, j | 0 <= i < j < k ensures rest[..k][i].flag != rest[..k][j].flag {
          assert rest[..k][i] == specs[..k + 1][i + 1] && rest[..k][j] == specs[..k + 1][j + 1];
        }
      }
      assert Fresh(fs + [f], rest[..k]) by {
        forall i | 0 <= i < k ensures Lookup(fs + [f], rest[..k][i].flag).None? {
          assert rest[..k][i] == specs[..k + 1][i + 1];
          assert specs[..k + 1][0].flag != specs[..k + 1][i + 1].flag;
        }
      }
      BindFieldsStopsAtUnknown(next, rest, k - 1);
    }
  }

  /** A field whose name is already taken in the target set panics the loop (when its type is known). */
  lemma RedefinitionPanics(reg: Registry, spec: Config.FieldSpec, specs: seq<Config.FieldSpec>)
    requires KnownType(spec.typeName) && Lookup(Target(reg.cmd), spec.flag).Some?
    ensures BindFields(reg, [spec] + specs) == Err(Redefined(spec.flag))
  {
    assert ([spec] + specs)[0] == spec;
  }

  /**
    A field of unknown type whose name IS already taken does not stop the
    loop: nothing is added, and the existing flag is bound under its name.
  */
  lemma UnknownTypeBindsExistingFlag(reg: Registry, spec: Config.FieldSpec)
    requires !KnownType(spec.typeName) && Lookup(Target(reg.cmd), spec.flag).Some?
    ensures BindField(reg, spec).Ok?
    ensures BindField(reg, spec).value.cmd == reg.cmd
    ensures BindField(reg, spec).value.bound == reg.bound[spec.flag := Lookup(Target(reg.cmd), spec.flag).value]
  {
  }

  /**
    A parsed default prints, as pflag keeps it in `DefValue`, to a text the
    configuration reads back as the same value: ints through Atoi, bools
    through ParseBool, []string through the decode hook (when the default
    text has no comma to confuse the split).
  */
  lemma DefValueReadsBack(typeName: Bytes, dv: Bytes)
    requires KnownType(typeName)
    ensures var d := DefaultFor(typeName, dv).value;
      (d.IntDefault? ==> Atoi(DefValue(d)) == Some(d.i))
      && (d.BoolDefault? ==> ParseBool(DefValue(d)) == Some(d.b))
      && (d.StringDefault? ==> DefValue(d) == dv)
      && (d.StringsDefault? && ',' !in dv ==> Envs.DecodeSlice(DefValue(d)) == d.xs)
  {
    var d := DefaultFor(typeName, dv).value;
    match d
    case IntDefault(i) => AtoiItoa(i);
    case BoolDefault(b) => ParseBoolFormatBool(b);
    case StringDefault(_) =>
    case StringsDefault(xs) =>
      if ',' !in dv {
        forall i | 0 <= i < |xs| ensures ',' !in xs[i] {
          NoCommaInPart(xs, i);
        }
        Envs.DecodeBracketedList(xs);
      }
  }

  /** A piece of a joined text holds no byte the text does not. */
  lemma {:induction false} NoCommaInPart(xs: seq<Bytes>, i: int)
    requires 0 <= i < |xs| && ',' !in Join(xs, " ")
    ensures ',' !in xs[i]
    decreases |xs|
  {
    if |xs| > 1 {
      assert Join(xs, " ") == xs[0] + " " + Join(xs[1..], " ");
      if i > 0 {
        NoCommaInPart(xs[1..], i - 1);
      }
    }
  }

  // ---------------------------------------------------------------------------
  // The configuration's own fields
  // ---------------------------------------------------------------------------

  /** Every field of Config has one of the four known types. */
  lemma SchemaTypesKnown()
    ensures AllKnown(Config.Schema)
  {
  }

  /** No two fields of Config share a flag name. */
  lemma SchemaFlagsDistinct()
    ensures DistinctFlags(Config.Schema)
  {
    var schema := Config.Schema;
    var lengths := [9, 14, 11, 16, 18, 18, 18, 19, 22, 12];
    assert forall i :: 0 <= i < |schema| ==> |schema[i].flag| == lengths[i];
    assert schema[4].flag[11] == 'o' && schema[5].flag[11] == 'm' && schema[6].flag[11] == 'h';
    forall i, j | 0 <= i < j < |schema| ensures schema[i].flag != schema[j].flag {
      if 4 <= i && j <= 6 {
        assert schema[i].flag[11] != schema[j].flag[11];
      } else {
        assert lengths[i] != lengths[j];
      }
    }
  }

  /**
    On a root command the fields' flags become its persistent flags, in
    declaration order, and each is bound under its name.
  */
  lemma RootCommandGetsPersistentFlags()
    ensures AllKnown(Config.Schema)
    ensures var r := BindCobraFlagsToCmd(Command(false, [], []), Config.Schema, map[]);
      r.Ok? && r.value.cmd == Command(false, FlagsOf(Config.Schema), [])
      && forall i :: 0 <= i < |Config.Schema| ==>
        Config.Schema[i].flag in r.value.bound && r.value.bound[Config.Schema[i].flag] == FlagOf(Config.Schema[i])
  {
    var reg := Registry(Command(false, [], []), map[]);
    SchemaTypesKnown();
    SchemaFlagsDistinct();
    BindFieldsSucceeds(reg, Config.Schema);
    forall i | 0 <= i < |Config.Schema|
      ensures var r := BindFields(reg, Config.Schema);
        Config.Schema[i].flag in r.value.bound && r.value.bound[Config.Schema[i].flag] == FlagOf(Config.Schema[i])
    {
      BindFieldsBindsEach(reg, Config.Schema, i);
    }
  }

  /** On a sub-command the flags become local flags and its persistent flags are left alone. */
  lemma SubCommandGetsLocalFlags(persistent: FlagSet)
    ensures AllKnown(Config.Schema)
    ensures var r := BindCobraFlagsToCmd(Command(true, persistent, []), Config.Schema, map[]);
      r.Ok? && r.value.cmd == Command(true, persistent, FlagsOf(Config.Schema))
  {
    SchemaTypesKnown();
    SchemaFlagsDistinct();
    BindFieldsSucceeds(Registry(Command(true, persistent, []), map[]), Config.Schema);
  }

  /** Binding the fields a second time into the same set panics on the first name. */
  lemma SecondBindingPanics()
    ensures AllKnown(Config.Schema)
    ensures var cmd := Command(false, FlagsOf(Config.Schema), []);
      BindCobraFlagsToCmd(cmd, Config.Schema, map[]) == Err(Redefined("log-level"))
  {
    SchemaTypesKnown();
    var fs := FlagsOf(Config.Schema);
    assert fs[0].name == "log-level";
    assert Lookup(fs, "log-level") == Some(fs[0]);
    assert Config.Schema == [Config.Schema[0]] + Config.Schema[1..];
    RedefinitionPanics(Registry(Command(false, fs, []), map[]), Config.Schema[0], Config.Schema[1..]);
  }

  /** The parsed defaults of the scalar fields. */
  lemma ScalarDefaults()
    ensures DefaultFor(Config.Schema[0].typeName, Config.Schema[0].defaultValue) == Some(StringDefault("info"))
    ensures DefaultFor(Config.Schema[3].typeName, Config.Schema[3].defaultValue) == Some(IntDefault(10))
    ensures DefaultFor(Config.Schema[8].typeName, Config.Schema[8].defaultValue) == Some(BoolDefault(false))
    ensures DefaultFor(Config.Schema[9].typeName, Config.Schema[9].defaultValue) == Some(IntDefault(1))
  {
    var ten: Bytes := "10";
    assert ten[1..] == "0" && ten[..1] == "1";
    assert DigitsValue(ten) == 10;
    var one: Bytes := "1";
    assert DigitsValue(one) == 1;
    assert "false" in FalseSpellings;
  }

  // The parsed defaults of the list fields: the tag text split at spaces.

  lemma AllowOriginsDefault()
    ensures DefaultFor(Config.Schema[4].typeName, Config.Schema[4].defaultValue) == Some(StringsDefault(["*"]))
  {
    ListFieldTags();
    SplitWords(Config.Schema[4].defaultValue, ["*"]);
  }

  lemma AllowMethodsDefault()
    ensures DefaultFor(Config.Schema[5].typeName, Config.Schema[5].defaultValue) == Some(StringsDefault(["GET", "POST", "PUT", "DELETE"]))
  {
    ListFieldTags();
    MethodWords();
    SplitWords(Config.Schema[5].defaultValue, ["GET", "POST", "PUT", "DELETE"]);
  }

  lemma MethodWords()
    ensures Join(["GET", "POST", "PUT", "DELETE"], " ") == "GET POST PUT DELETE"
    ensures forall i :: 0 <= i < 4 ==> ' ' !in ["GET", "POST", "PUT", "DELETE"][i]
  {
    MethodWordsJoin();
  }

  lemma MethodWordsJoin()
    ensures Join(["GET", "POST", "PUT", "DELETE"], " ") == "GET POST PUT DELETE"
  {
    LastMethodsJoin();
    assert ["GET", "POST", "PUT", "DELETE"][1..] == ["POST", "PUT", "DELETE"];
  }

  lemma LastMethodsJoin()
    ensures Join(["POST", "PUT", "DELETE"], " ") == "POST PUT DELETE"
  {
    assert Join(["PUT", "DELETE"], " ") == "PUT DELETE" by {
      assert ["PUT", "DELETE"][1..] == ["DELETE"];
    }
    assert ["POST", "PUT", "DELETE"][1..] == ["PUT", "DELETE"];
  }

  lemma AllowHeadersDefault()
    ensures DefaultFor(Config.Schema[6].typeName, Config.Schema[6].defaultValue) == Some(StringsDefault(["Origin", "content-type"]))
  {
    ListFieldTags();
    SplitWords(Config.Schema[6].defaultValue, ["Origin", "content-type"]);
  }

  lemma ExposeHeadersDefault()
    ensures DefaultFor(Config.Schema[7].typeName, Config.Schema[7].defaultValue) == Some(StringsDefault(["Content-Length"]))
  {
    ListFieldTags();
    SplitWords(Config.Schema[7].defaultValue, ["Content-Length"]);
  }

  lemma ListFieldTags()
    ensures Config.Schema[4].typeName == "[]string" && Config.Schema[4].defaultValue == "*"
    ensures Config.Schema[5].typeName == "[]string" && Config.Schema[5].defaultValue == "GET POST PUT DELETE"
    ensures Config.Schema[6].typeName == "[]string" && Config.Schema[6].defaultValue == "Origin content-type"
    ensures Config.Schema[7].typeName == "[]string" && Config.Schema[7].defaultValue == "Content-Length"
  {
  }

  /** A text made of space-free words joined by single spaces splits back into those words. */
  lemma SplitWords(dv: Bytes, words: seq<Bytes>)
    requires |words| >= 1 && Join(words, " ") == dv
    requires forall i :: 0 <= i < |words| ==> ' ' !in words[i]
    ensures Split(dv, ' ') == words
  {
    SplitJoin(words, ' ');
  }

  /**
    Every field's default, printed as pflag keeps it and read back the way
    the configuration is read (through Atoi, ParseBool or the decode hook),
    is the default the flag was created with.
  */
  lemma SchemaDefaultsReadBack(i: int)
    requires 0 <= i < |Config.Schema|
    ensures var d := FlagOf(Config.Schema[i]).value;
      (d.IntDefault? ==> Atoi(DefValue(d)) == Some(d.i))
      && (d.BoolDefault? ==> ParseBool(DefValue(d)) == Some(d.b))
      && (d.StringsDefault? ==> Envs.DecodeSlice(DefValue(d)) == d.xs)
  {
    SchemaTypesKnown();
    var spec := Config.Schema[i];
    if spec.typeName == "[]string" {
      assert ',' !in spec.defaultValue by {
        SchemaListDefaultsHaveNoComma(i);
      }
    }
    DefValueReadsBack(spec.typeName, spec.defaultValue);
  }

  lemma SchemaListDefaultsHaveNoComma(i: int)
    requires 0 <= i < |Config.Schema| && Config.Schema[i].typeName == "[]string"
    ensures ',' !in Config.Schema[i].defaultValue
  {
    var dv := Config.Schema[i].defaultValue;
    assert 4 <= i <= 7;
    assert forall j :: 0 <= j < |dv| ==> dv[j] != ',';
  }
}
