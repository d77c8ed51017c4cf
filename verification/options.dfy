/** The constructor of `BlockCompressor`: turning the parsed command-line
    map into the settings of a compression run, and the table from
    compression level to (transform, entropy codec). */
module Options {
  import opened Wrappers
  import opened Text

  /** `getTransformAndCodec`: levels 0 to 5 name a fixed transform chain and
      entropy codec; any other level names neither. */
  function TransformAndCodec(level: int): (r: (string, string))
    ensures 0 <= level <= 5 ==> r == LevelTable[level]
    ensures r.0 == "Unknown" <==> !(0 <= level <= 5)
    ensures r.1 == "Unknown" <==> !(0 <= level <= 5)
  {
    match level
    case 0 => ("NONE", "NONE")
    case 1 => ("TEXT+LZ4", "HUFFMAN")
    case 2 => ("BWT+RANK+ZRLT", "ANS0")
    case 3 => ("BWT+RANK+ZRLT", "FPAQ")
    case 4 => ("BWT", "CM")
    case 5 => ("X86+RLT+TEXT", "TPAQ")
    case _ => ("Unknown", "Unknown")
  }

  /** The levels in order, as a table. */
  const LevelTable: seq<(string, string)> := [
    ("NONE", "NONE"),
    ("TEXT+LZ4", "HUFFMAN"),
    ("BWT+RANK+ZRLT", "ANS0"),
    ("BWT+RANK+ZRLT", "FPAQ"),
    ("BWT", "CM"),
    ("X86+RLT+TEXT", "TPAQ")
  ]

  /** Different levels choose different pipelines, so a level can be told
      back from its (transform, codec) pair. */
  lemma LevelsAreDistinguishable(a: int, b: int)
    requires 0 <= a <= 5 && 0 <= b <= 5 && a != b
    ensures TransformAndCodec(a) != TransformAndCodec(b)
  {
  }

  /** Values that BlockCompressor.hpp defines (that header is not part of
      this model). */
  datatype Defaults = Defaults(blockSize: int, concurrency: int)

  datatype Settings = Settings(
    level: int,
    overwrite: bool,
    inputName: string,
    outputName: string,
    codec: string,
    transform: string,
    blockSize: int,
    checksum: bool,
    jobs: int,
    verbosity: int,
    ignored: set<string>)

  /** A build without `CONCURRENCY_ENABLED` refuses more than one job. */
  datatype OptionError = TooManyJobs

  /** Keys the constructor reads without checking that they are present. */
  const RequiredKeys: set<string> := {"level", "inputName", "outputName", "jobs", "verbose"}

  /** Keys the constructor consumes; whatever else is left is reported as
      an ignored option. */
  const KnownKeys: set<string> := RequiredKeys + {"overwrite", "entropy", "block", "transform", "checksum"}

  const DefaultCodec: string := "ANS0"
  const DefaultTransform: string := "BWT+RANK+ZRLT"

  /** A boolean option: true exactly when it reads TRUE in any letter case. */
  function IsTrue(value: string): (r: bool)
    ensures r <==> |value| == 4 && forall i :: 0 <= i < 4 ==> UpperChar(value[i]) == "TRUE"[i]
  {
    Upper(value) == "TRUE"
  }

  /** The transform chain before `FunctionFactory` curates its name: a valid
      level decides it, otherwise the option or the default does. */
  function RawTransform(args: map<string, string>, level: int): string {
    if level >= 0 then TransformAndCodec(level).0
    else if "transform" in args then args["transform"]
    else DefaultTransform
  }

  /** The constructor (lines 42-148). `curate` stands for
      `FunctionFactory::getName(getType(..))`, whose source is not part of
      this model. */
  function Resolve(args: map<string, string>, defaults: Defaults, curate: string -> string,
                   concurrencyEnabled: bool): (r: Result<Settings, OptionError>)
    requires RequiredKeys <= args.Keys
    ensures r.Failure? <==>
      !concurrencyEnabled && (if Atoi(args["jobs"]) == 0 then defaults.concurrency else Atoi(args["jobs"])) > 1
    ensures r.Success? ==> r.value.level == Atoi(args["level"])
    ensures r.Success? ==> r.value.inputName == args["inputName"] && r.value.outputName == args["outputName"]
    ensures r.Success? ==> (r.value.overwrite <==> "overwrite" in args && IsTrue(args["overwrite"]))
    ensures r.Success? ==> (r.value.checksum <==> "checksum" in args && IsTrue(args["checksum"]))
    ensures r.Success? ==> (r.value.codec ==
      if r.value.level >= 0 then TransformAndCodec(r.value.level).1
      else if "entropy" in args then args["entropy"] else DefaultCodec)
    ensures r.Success? ==> r.value.transform == curate(RawTransform(args, r.value.level))
    ensures r.Success? ==> (r.value.blockSize ==
      if "block" in args then Atoi(args["block"]) else defaults.blockSize)
    ensures r.Success? ==> (r.value.jobs ==
      if Atoi(args["jobs"]) == 0 then defaults.concurrency else Atoi(args["jobs"]))
    ensures r.Success? ==> r.value.verbosity == Atoi(args["verbose"])
    ensures r.Success? ==> r.value.ignored == args.Keys - KnownKeys
  {
    var level := Atoi(args["level"]);
    var overwrite := "overwrite" in args && IsTrue(args["overwrite"]);
    var entropy := if "entropy" in args then args["entropy"] else DefaultCodec;
    var codec := if level >= 0 then TransformAndCodec(level).1 else entropy;
    var blockSize := if "block" in args then Atoi(args["block"]) else defaults.blockSize;
    var transform := curate(RawTransform(args, level));
    var checksum := "checksum" in args && IsTrue(args["checksum"]);
    var concurrency := Atoi(args["jobs"]);
    var jobs := if concurrency == 0 then defaults.concurrency else concurrency;
    if !concurrencyEnabled && jobs > 1 then Failure(TooManyJobs)
    else
      Success(Settings(level, overwrite, args["inputName"], args["outputName"], codec, transform,
                       blockSize, checksum, jobs, Atoi(args["verbose"]), args.Keys - KnownKeys))
  }

  /** A non-negative level overrides both the entropy and the transform
      options: two maps that differ only there resolve to the same
      pipeline. */
  lemma LevelOverridesPipelineOptions(a: map<string, string>, b: map<string, string>,
                                      defaults: Defaults, curate: string -> string, enabled: bool)
    requires RequiredKeys <= a.Keys && RequiredKeys <= b.Keys
    requires forall k :: k != "entropy" && k != "transform" ==> (k in a <==> k in b)
    requires forall k :: k in a && k != "entropy" && k != "transform" ==> a[k] == b[k]
    requires Atoi(a["level"]) >= 0
    ensures Resolve(a, defaults, curate, enabled).Success? ==>
      Resolve(b, defaults, curate, enabled).Success?
      && Resolve(a, defaults, curate, enabled).value.codec == Resolve(b, defaults, curate, enabled).value.codec
      && Resolve(a, defaults, curate, enabled).value.transform == Resolve(b, defaults, curate, enabled).value.transform
  {
    assert a["level"] == b["level"] && a["jobs"] == b["jobs"];
  }

  /** A job count that `atoi` reads as negative is kept as it is, with or
      without concurrency: only 0 falls back to the default. */
  lemma NegativeJobsPassThrough(args: map<string, string>, defaults: Defaults, curate: string -> string,
                                enabled: bool)
    requires RequiredKeys <= args.Keys
    requires Atoi(args["jobs"]) < 0
    ensures Resolve(args, defaults, curate, enabled).Success?
    ensures Resolve(args, defaults, curate, enabled).value.jobs == Atoi(args["jobs"])
  {
  }

  /** The text `-3`, for one, gives -3 jobs. */
  lemma MinusThreeJobs(args: map<string, string>, defaults: Defaults, curate: string -> string, enabled: bool)
    requires RequiredKeys <= args.Keys
    requires args["jobs"] == "-3"
    ensures Resolve(args, defaults, curate, enabled).Success?
    ensures Resolve(args, defaults, curate, enabled).value.jobs == -3
  {
    AtoiIntToString(-3);
    assert IntToString(-3) == "-3";
    NegativeJobsPassThrough(args, defaults, curate, enabled);
  }
}
