/** The analysis stage: which statistic each metric flag selects, running the
    selected statistics on every loaded file, and gathering the results by
    file path for the JSON report.

    The statistics are a closed set of four metrics; the processing methods
    are found by their "p_" prefix among the analyser's method names. */
module Parser {
  import opened Wrappers
  import opened InputParser
  import opened Metrics

  datatype Metric = Mfip | Lfip | Eps | Bytes

  /** The flag (and processing-method) name of each metric. */
  function MetricName(m: Metric): string
  {
    match m
    case Mfip => "mfip"
    case Lfip => "lfip"
    case Eps => "eps"
    case Bytes => "bytes"
  }

  /** One statistic's value as it is written to the report. */
  datatype Value = Address(ip: string) | Rate(average: Average) | ByteCount(bytes: int)

  /** The statistics of one file: each selected flag's name with its value, in flag order. */
  type Stats = seq<(string, Value)>

  /** Runs one statistic on a table. */
  function Compute(m: Metric, t: Table): Result<Value, MetricError>
  {
    match m
    case Mfip => (match MostFrequentIp(t) case Success(ip) => Success(Address(ip)) case Failure(e) => Failure(e))
    case Lfip => (match LeastFrequentIp(t) case Success(ip) => Success(Address(ip)) case Failure(e) => Failure(e))
    case Eps => (match EventsPerSecond(t) case Success(a) => Success(Rate(a)) case Failure(e) => Failure(e))
    case Bytes => (match TotalBytes(t) case Success(n) => Success(ByteCount(n)) case Failure(e) => Failure(e))
  }

  // ---------------------------------------------------------------------
  // Finding the processing methods
  // ---------------------------------------------------------------------

  /** The analyser's own method names, in the sorted order in which they are listed. */
  const ParserMethods: seq<string> :=
    ["map_processing_methods", "p_bytes", "p_eps", "p_lfip", "p_mfip", "run", "to_json"]

  const MethodPrefix := "p_"

  predicate StartsWith(s: string, prefix: string)
  {
    |prefix| <= |s| && s[..|prefix|] == prefix
  }

  function RemovePrefix(s: string, prefix: string): (r: string)
    ensures StartsWith(s, prefix) ==> prefix + r == s
    ensures !StartsWith(s, prefix) ==> r == s
  {
    if StartsWith(s, prefix) then
      assert s == s[..|prefix|] + s[|prefix|..];
      s[|prefix|..]
    else s
  }

  /** The statistic a processing method computes. */
  function Implementation(name: string): Option<Metric>
  {
    if name == "p_mfip" then Some(Mfip)
    else if name == "p_lfip" then Some(Lfip)
    else if name == "p_eps" then Some(Eps)
    else if name == "p_bytes" then Some(Bytes)
    else None
  }

  /** The mapping once one more method name has been looked at: a "p_" method
      is registered under its name without the prefix. */
  function Register(methods: map<string, Metric>, name: string): map<string, Metric>
  {
    if StartsWith(name, MethodPrefix) && Implementation(name).Some?
    then methods[RemovePrefix(name, MethodPrefix) := Implementation(name).value]
    else methods
  }

  /** The mapping built from a list of method names, in order. */
  function MethodsOf(names: seq<string>): map<string, Metric>
  {
    if names == [] then map[] else Register(MethodsOf(names[..|names| - 1]), names[|names| - 1])
  }

  /** The analyser's mapping: one entry per metric, under the metric's name. */
  lemma MethodsOfParser()
    ensures MethodsOf(ParserMethods) == map["bytes" := Bytes, "eps" := Eps, "lfip" := Lfip, "mfip" := Mfip]
  {
    var ns := ParserMethods;
    assert ns[..0] == [] && ns[..7] == ns;
    SkipMethod(MethodsOf(ns[..0]), ns[0]);
    MethodsOfStep(ns, 0);
    RegisterNamed(MethodsOf(ns[..1]), ns[1], "bytes", Bytes);
    MethodsOfStep(ns, 1);
    RegisterNamed(MethodsOf(ns[..2]), ns[2], "eps", Eps);
    MethodsOfStep(ns, 2);
    RegisterNamed(MethodsOf(ns[..3]), ns[3], "lfip", Lfip);
    MethodsOfStep(ns, 3);
    RegisterNamed(MethodsOf(ns[..4]), ns[4], "mfip", Mfip);
    MethodsOfStep(ns, 4);
    SkipMethod(MethodsOf(ns[..5]), ns[5]);
    MethodsOfStep(ns, 5);
    SkipMethod(MethodsOf(ns[..6]), ns[6]);
    MethodsOfStep(ns, 6);
  }

  /** A method that computes no statistic is not registered. */
  lemma SkipMethod(methods: map<string, Metric>, name: string)
    requires Implementation(name).None?
    ensures Register(methods, name) == methods
  {
  }

  /** A "p_" method is registered under its name without the prefix. */
  lemma RegisterNamed(methods: map<string, Metric>, name: string, suffix: string, m: Metric)
    requires name == MethodPrefix + suffix && Implementation(name) == Some(m)
    ensures Register(methods, name) == methods[suffix := m]
  {
    PrefixedMethod(suffix);
  }

  /** Each metric is found under its own name, and the names found are the flag names. */
  lemma MethodsOfParserByName()
    ensures MethodsOf(ParserMethods).Keys == set i | 0 <= i < |FlagNames| :: FlagNames[i]
    ensures forall m: Metric :: MetricName(m) in MethodsOf(ParserMethods) && MethodsOf(ParserMethods)[MetricName(m)] == m
  {
    MethodsOfParser();
    var flagSet := set i | 0 <= i < |FlagNames| :: FlagNames[i];
    assert flagSet == {"mfip", "lfip", "eps", "bytes"} by {
      assert FlagNames[0] in flagSet && FlagNames[1] in flagSet && FlagNames[2] in flagSet && FlagNames[3] in flagSet;
    }
  }

  lemma PrefixedMethod(name: string)
    ensures StartsWith(MethodPrefix + name, MethodPrefix) && RemovePrefix(MethodPrefix + name, MethodPrefix) == name
  {
    assert (MethodPrefix + name)[..2] == MethodPrefix;
    assert (MethodPrefix + name)[2..] == name;
  }

  lemma MethodsOfStep(names: seq<string>, k: nat)
    requires k < |names|
    ensures MethodsOf(names[..k + 1]) == Register(MethodsOf(names[..k]), names[k])
  {
    assert names[..k + 1][..k] == names[..k];
  }

  /** The flags whose stripped name has no processing method, when the two sets differ. */
  function FlagCheck(flagArgs: seq<(string, string)>, methods: map<string, Metric>): (r: Option<set<string>>)
    ensures r.None? <==> (set i | 0 <= i < |flagArgs| :: RemovePrefix(flagArgs[i].0, "--")) == methods.Keys
    ensures r.Some? ==> forall f | f in r.value :: f !in methods && exists i | 0 <= i < |flagArgs| :: RemovePrefix(flagArgs[i].0, "--") == f
    ensures forall i | 0 <= i < |flagArgs| && RemovePrefix(flagArgs[i].0, "--") !in methods ::
      r.Some? && RemovePrefix(flagArgs[i].0, "--") in r.value
  {
    var declared := set i | 0 <= i < |flagArgs| :: RemovePrefix(flagArgs[i].0, "--");
    if declared != methods.Keys then Some(declared - methods.Keys) else None
  }

  lemma DoubleDashRemoved(name: string)
    ensures RemovePrefix("--" + name, "--") == name
  {
    assert ("--" + name)[..2] == "--";
    assert ("--" + name)[2..] == name;
  }

  /** Taking the "--" off a declared flag gives the name the input stage
      strips it to. */
  lemma FlagNamesAgree()
    ensures forall i | 0 <= i < |FlagArgs| :: RemovePrefix(FlagArgs[i].0, "--") == FlagNames[i] == StripDashes(FlagArgs[i].0)
  {
    StrippedFlagArgs();
    FlagArgsShape();
    forall i | 0 <= i < |FlagArgs|
      ensures RemovePrefix(FlagArgs[i].0, "--") == FlagNames[i]
    {
      DoubleDashRemoved(FlagNames[i]);
    }
  }

  /** Every declared flag has its processing method, and there is no method
      without a flag: the analyser starts without a warning. */
  lemma FlagsAllImplemented()
    ensures FlagCheck(FlagArgs, MethodsOf(ParserMethods)) == None
  {
    FlagNamesAgree();
    MethodsOfParserByName();
    var declared := set i | 0 <= i < |FlagArgs| :: RemovePrefix(FlagArgs[i].0, "--");
    assert declared == set i | 0 <= i < |FlagNames| :: FlagNames[i];
  }

  // ---------------------------------------------------------------------
  // Running the statistics
  // ---------------------------------------------------------------------

  datatype RunError =
    | UnknownFlag(flag: string)                                 // a set flag without a processing method
    | MetricFailed(path: string, flag: string, error: MetricError)  // a statistic failed on a file

  /** The statistics of one file for the set flags, in flag order; the first
      failure ends the analysis. */
  function FileStats(path: string, t: Table, flags: seq<(string, bool)>, methods: map<string, Metric>)
    : Result<Stats, RunError>
  {
    if flags == [] then Success([])
    else
      match FileStats(path, t, flags[..|flags| - 1], methods)
      case Failure(e) => Failure(e)
      case Success(stats) =>
        var flag := flags[|flags| - 1];
        if !flag.1 then Success(stats)
        else if flag.0 !in methods then Failure(UnknownFlag(flag.0))
        else match Compute(methods[flag.0], t)
          case Failure(e) => Failure(MetricFailed(path, flag.0, e))
          case Success(v) => Success(stats + [(flag.0, v)])
  }

  /** Every file's statistics, one entry per file, in file order. */
  function AllStats(files: seq<LogFile>, flags: seq<(string, bool)>, methods: map<string, Metric>)
    : Result<seq<(string, Stats)>, RunError>
  {
    if files == [] then Success([])
    else
      match AllStats(files[..|files| - 1], flags, methods)
      case Failure(e) => Failure(e)
      case Success(filestats) =>
        var file := files[|files| - 1];
        match FileStats(file.path, file.table, flags, methods)
        case Failure(e) => Failure(e)
        case Success(stats) => Success(filestats + [(file.path, stats)])
  }

  /** The report: each file's statistics under its path; a path that occurs
      again replaces the earlier entry. */
  function ToJson(filestats: seq<(string, Stats)>): (report: map<string, Stats>)
    ensures report.Keys == set i | 0 <= i < |filestats| :: filestats[i].0
  {
    if filestats == [] then map[]
    else
      var last := filestats[|filestats| - 1];
      var before := filestats[..|filestats| - 1];
      var report := ToJson(before)[last.0 := last.1];
      assert forall i | 0 <= i < |before| :: before[i] == filestats[i];
      report
  }

  function Analysis(files: seq<LogFile>, flags: seq<(string, bool)>, methods: map<string, Metric>)
    : Result<map<string, Stats>, RunError>
  {
    match AllStats(files, flags, methods)
    case Success(filestats) => Success(ToJson(filestats))
    case Failure(e) => Failure(e)
  }

  /** The names of the set flags, in flag order. */
  function Enabled(flags: seq<(string, bool)>): seq<string>
  {
    if flags == [] then []
    else Enabled(flags[..|flags| - 1]) + (if flags[|flags| - 1].1 then [flags[|flags| - 1].0] else [])
  }

  function Names(stats: Stats): seq<string>
  {
    seq(|stats|, i requires 0 <= i < |stats| => stats[i].0)
  }

  /** A file's statistics hold exactly the set flags, in flag order, each with
      the value its metric computes on the file. */
  lemma FileStatsHoldEnabled(path: string, t: Table, flags: seq<(string, bool)>, methods: map<string, Metric>)
    requires FileStats(path, t, flags, methods).Success?
    ensures var stats := FileStats(path, t, flags, methods).value;
      && Names(stats) == Enabled(flags)
      && forall i | 0 <= i < |stats| ::
           stats[i].0 in methods && Compute(methods[stats[i].0], t) == Success(stats[i].1)
  {
    FileStatsNames(path, t, flags, methods);
    FileStatsValues(path, t, flags, methods);
  }

  lemma {:induction false} FileStatsNames(path: string, t: Table, flags: seq<(string, bool)>, methods: map<string, Metric>)
    requires FileStats(path, t, flags, methods).Success?
    ensures Names(FileStats(path, t, flags, methods).value) == Enabled(flags)
  {
    if flags != [] {
      var prefix := flags[..|flags| - 1];
      FileStatsNames(path, t, prefix, methods);
      var before := FileStats(path, t, prefix, methods).value;
      var stats := FileStats(path, t, flags, methods).value;
      var flag := flags[|flags| - 1];
      if flag.1 {
        var entry := (flag.0, stats[|stats| - 1].1);
        assert stats == before + [entry];
        NamesSnoc(before, entry);
      } else {
        assert stats == before;
      }
    }
  }

  lemma NamesSnoc(stats: Stats, entry: (string, Value))
    ensures Names(stats + [entry]) == Names(stats) + [entry.0]
  {
  }

  lemma {:induction false} FileStatsValues(path: string, t: Table, flags: seq<(string, bool)>, methods: map<string, Metric>)
    requires FileStats(path, t, flags, methods).Success?
    ensures var stats := FileStats(path, t, flags, methods).value;
      forall i | 0 <= i < |stats| :: stats[i].0 in methods && Compute(methods[stats[i].0], t) == Success(stats[i].1)
  {
    if flags != [] {
      var prefix := flags[..|flags| - 1];
      FileStatsValues(path, t, prefix, methods);
      var before := FileStats(path, t, prefix, methods).value;
      var stats := FileStats(path, t, flags, methods).value;
      var flag := flags[|flags| - 1];
      if flag.1 {
        var v := stats[|stats| - 1].1;
        assert flag.0 in methods && Compute(methods[flag.0], t) == Success(v);
        assert stats == before + [(flag.0, v)];
      } else {
        assert stats == before;
      }
    }
  }

  /** A file's analysis succeeds exactly when every set flag has a method and
      that method succeeds on the file. */
  lemma {:induction false} FileStatsSucceed(path: string, t: Table, flags: seq<(string, bool)>, methods: map<string, Metric>)
    ensures FileStats(path, t, flags, methods).Success? <==>
      forall j | 0 <= j < |flags| && flags[j].1 :: flags[j].0 in methods && Compute(methods[flags[j].0], t).Success?
  {
    if flags != [] {
      var prefix := flags[..|flags| - 1];
      FileStatsSucceed(path, t, prefix, methods);
      assert forall j | 0 <= j < |prefix| :: prefix[j] == flags[j];
    }
  }

  /** The analysis yields one entry per file, in file order, each the file's own statistics. */
  lemma {:induction false} AllStatsPerFile(files: seq<LogFile>, flags: seq<(string, bool)>, methods: map<string, Metric>)
    requires AllStats(files, flags, methods).Success?
    ensures var fs := AllStats(files, flags, methods).value;
      && |fs| == |files|
      && forall i | 0 <= i < |files| ::
           fs[i].0 == files[i].path && Success(fs[i].1) == FileStats(files[i].path, files[i].table, flags, methods)
  {
    if files != [] {
      var prefix := files[..|files| - 1];
      AllStatsPerFile(prefix, flags, methods);
      var fs := AllStats(files, flags, methods).value;
      var before := AllStats(prefix, flags, methods).value;
      assert fs[..|fs| - 1] == before;
      forall i | 0 <= i < |files|
        ensures fs[i].0 == files[i].path && Success(fs[i].1) == FileStats(files[i].path, files[i].table, flags, methods)
      {
        if i < |prefix| {
          assert fs[i] == before[i] && files[i] == prefix[i];
        }
      }
    }
  }

  /** The analysis fails exactly when some file fails. */
  lemma {:induction false} AllStatsSucceed(files: seq<LogFile>, flags: seq<(string, bool)>, methods: map<string, Metric>)
    ensures AllStats(files, flags, methods).Success? <==>
      forall i | 0 <= i < |files| :: FileStats(files[i].path, files[i].table, flags, methods).Success?
  {
    if files != [] {
      var prefix := files[..|files| - 1];
      AllStatsSucceed(prefix, flags, methods);
      assert forall i | 0 <= i < |prefix| :: prefix[i] == files[i];
    }
  }

  /** The report holds, for every path, the statistics of the last file with that path. */
  lemma {:induction false} ToJsonLastWins(filestats: seq<(string, Stats)>, i: nat)
    requires i < |filestats|
    requires forall j | i < j < |filestats| :: filestats[j].0 != filestats[i].0
    ensures ToJson(filestats)[filestats[i].0] == filestats[i].1
  {
    var n := |filestats| - 1;
    if i < n {
      var before := filestats[..n];
      assert before[i] == filestats[i];
      ToJsonLastWins(before, i);
    }
  }

  /** With the flags of the input stage and the analyser's own methods, every
      file's statistics are exactly the metrics given on the command line, in
      declaration order, and no flag lacks its method. */
  lemma StatsOfGivenFlags(path: string, t: Table, given: set<string>)
    requires FileStats(path, t, FlagValues(given), MethodsOf(ParserMethods)).Success?
    ensures Names(FileStats(path, t, FlagValues(given), MethodsOf(ParserMethods)).value)
         == Enabled(FlagValues(given))
    ensures forall n :: n in Enabled(FlagValues(given)) <==> n in given && n in FlagNames
  {
    FileStatsHoldEnabled(path, t, FlagValues(given), MethodsOf(ParserMethods));
    EnabledMembers(FlagValues(given));
  }

  lemma {:induction false} EnabledMembers(flags: seq<(string, bool)>)
    ensures forall n :: n in Enabled(flags) <==> exists j | 0 <= j < |flags| :: flags[j] == (n, true)
  {
    if flags != [] {
      var prefix := flags[..|flags| - 1];
      EnabledMembers(prefix);
      assert forall j | 0 <= j < |prefix| :: prefix[j] == flags[j];
    }
  }

  /** A failure among the first flags is the failure of the whole file. */
  lemma {:induction false} FileStatsFailurePersists(path: string, t: Table, flags: seq<(string, bool)>, methods: map<string, Metric>, k: nat)
    requires k <= |flags| && FileStats(path, t, flags[..k], methods).Failure?
    ensures FileStats(path, t, flags, methods) == FileStats(path, t, flags[..k], methods)
    decreases |flags| - k
  {
    if k < |flags| {
      assert flags[..k + 1][..k] == flags[..k];
      FileStatsFailurePersists(path, t, flags, methods, k + 1);
    } else {
      assert flags[..k] == flags;
    }
  }

  /** A failure among the first files is the failure of the whole analysis. */
  lemma {:induction false} AllStatsFailurePersists(files: seq<LogFile>, flags: seq<(string, bool)>, methods: map<string, Metric>, k: nat)
    requires k <= |files| && AllStats(files[..k], flags, methods).Failure?
    ensures AllStats(files, flags, methods) == AllStats(files[..k], flags, methods)
    decreases |files| - k
  {
    if k < |files| {
      assert files[..k + 1][..k] == files[..k];
      AllStatsFailurePersists(files, flags, methods, k + 1);
    } else {
      assert files[..k] == files;
    }
  }

  // ---------------------------------------------------------------------
  // The analyser
  // ---------------------------------------------------------------------

  class Analyser {
    /** Processing methods by flag name. */
    var methodMapping: map<string, Metric>
    /** The warning about flags without a processing method, if any. */
    var unimplemented: Option<set<string>>
    var files: seq<LogFile>
    var flags: seq<(string, bool)>
    var output: string

    /** Finds the processing methods, checks them against the declared flags,
        and takes over what the input stage produced. */
    constructor (inputs: Inputs)
      ensures methodMapping == MethodsOf(ParserMethods)
      ensures unimplemented == FlagCheck(FlagArgs, methodMapping)
      ensures files == inputs.files && flags == inputs.flags && output == inputs.output
    {
      methodMapping := map[];
      unimplemented := None;
      files := inputs.files;
      flags := inputs.flags;
      output := inputs.output;
      new;
      MapProcessingMethods();
      unimplemented := FlagCheck(FlagArgs, methodMapping);
    }

    /** Registers every "p_" method under its name without the prefix. */
    method MapProcessingMethods()
      modifies this`methodMapping
      ensures methodMapping == old(methodMapping) + MethodsOf(ParserMethods)
    {
      var i := 0;
      while i < |ParserMethods|
        invariant 0 <= i <= |ParserMethods|
        invariant methodMapping == old(methodMapping) + MethodsOf(ParserMethods[..i])
      {
        var name := ParserMethods[i];
        assert ParserMethods[..i + 1][..i] == ParserMethods[..i];
        if StartsWith(name, MethodPrefix) && Implementation(name).Some? {
          methodMapping := methodMapping[RemovePrefix(name, MethodPrefix) := Implementation(name).value];
        }
        MethodsOfStep(ParserMethods, i);
        i := i + 1;
      }
      assert ParserMethods[..|ParserMethods|] == ParserMethods;
    }

    /** Runs the set statistics on one file, in flag order; the first metric
        that fails ends the file's analysis. */
    method AnalyseFile(file: LogFile) returns (r: Result<Stats, RunError>)
      ensures r == FileStats(file.path, file.table, flags, methodMapping)
    {
      var stats: Stats := [];
      var j := 0;
      while j < |flags|
        invariant 0 <= j <= |flags|
        invariant FileStats(file.path, file.table, flags[..j], methodMapping) == Success(stats)
      {
        var flag := flags[j];
        assert flags[..j + 1][..j] == flags[..j] && flags[..j + 1][j] == flag;
        if flag.1 {
          if flag.0 !in methodMapping {
            FileStatsFailurePersists(file.path, file.table, flags, methodMapping, j + 1);
            return Failure(UnknownFlag(flag.0));
          }
          var result := Compute(methodMapping[flag.0], file.table);
          if result.Failure? {
            FileStatsFailurePersists(file.path, file.table, flags, methodMapping, j + 1);
            return Failure(MetricFailed(file.path, flag.0, result.error));
          }
          stats := stats + [(flag.0, result.value)];
        }
        j := j + 1;
      }
      assert flags[..|flags|] == flags;
      return Success(stats);
    }

    /** Runs the set statistics on every file and gathers them by path. */
    method Run() returns (r: Result<map<string, Stats>, RunError>)
      ensures r == Analysis(files, flags, methodMapping)
    {
      var filestats: seq<(string, Stats)> := [];
      var i := 0;
      while i < |files|
        invariant 0 <= i <= |files|
        invariant AllStats(files[..i], flags, methodMapping) == Success(filestats)
      {
        var file := files[i];
        assert files[..i + 1][..i] == files[..i] && files[..i + 1][i] == file;
        var stats := AnalyseFile(file);
        if stats.Failure? {
          AllStatsFailurePersists(files, flags, methodMapping, i + 1);
          return Failure(stats.error);
        }
        filestats := filestats + [(file.path, stats.value)];
        i := i + 1;
      }
      assert files[..|files|] == files;
      return Success(ToJson(filestats));
    }
  }

  /** Starting the analyser: the input stage runs first and its failure ends
      the program; otherwise the analyser holds the loaded files, the flag
      values and the output path, with every flag implemented. */
  method Start(cmd: CommandLine, fs: FileSystem) returns (r: Result<Analyser, ConfigError>)
    ensures r.Failure? <==> ConfigCheck(cmd, fs).Fail?
    ensures r.Failure? ==> r.error == ConfigCheck(cmd, fs).error
    ensures r.Success? ==>
      && fresh(r.value)
      && r.value.files == Loaded(cmd.inputs, fs.contents)
      && r.value.flags == FlagValues(cmd.given)
      && r.value.output == cmd.output
      && r.value.methodMapping == MethodsOf(ParserMethods)
      && r.value.unimplemented == None
  {
    var handler := new InputParse();
    var inputs := handler.Run(cmd, fs);
    if inputs.Failure? {
      return Failure(inputs.error);
    }
    var analyser := new Analyser(inputs.value);
    FlagsAllImplemented();
    return Success(analyser);
  }
}
