/**
 * The run configuration of cornelius/src/config.rs: the saturation limits
 * handed to the e-graph runner and the output flags, built from the
 * defaults by a chain of `with_*` builders.  A limit of 0 on the command
 * line means "unlimited", which the builders store as `usize::MAX`.
 * Durations are whole seconds, the only unit the command line offers.
 */
module Config {

  /** `usize::MAX` on a 64-bit target. */
  const UsizeMax: nat := 0xFFFF_FFFF_FFFF_FFFF

  type usize = n: nat | n <= UsizeMax

  datatype RunConfig = RunConfig(
    iterLimit: usize,
    nodeLimit: usize,
    timeLimitSecs: nat,
    verbose: bool,
    runDetails: bool,
    iterDetails: bool,
    writeEquivsToSingleFile: bool,
    stopOnError: bool)

  /** `with_iter_limit`: 0 asks for no limit, stored as `usize::MAX`. */
  function WithIterLimit(c: RunConfig, n: usize): (r: RunConfig)
    ensures r == c.(iterLimit := r.iterLimit)
    ensures r.iterLimit == Limit(n)
  {
    c.(iterLimit := Limit(n))
  }

  /** `with_time_limit`. */
  function WithTimeLimit(c: RunConfig, secs: nat): (r: RunConfig)
    ensures r == c.(timeLimitSecs := r.timeLimitSecs)
    ensures r.timeLimitSecs == secs
  {
    c.(timeLimitSecs := secs)
  }

  /** `with_node_limit`: 0 asks for no limit, stored as `usize::MAX`. */
  function WithNodeLimit(c: RunConfig, n: usize): (r: RunConfig)
    ensures r == c.(nodeLimit := r.nodeLimit)
    ensures r.nodeLimit == Limit(n)
  {
    c.(nodeLimit := Limit(n))
  }

  /** `with_verbosity`. */
  function WithVerbosity(c: RunConfig, b: bool): (r: RunConfig)
    ensures r == c.(verbose := r.verbose)
    ensures r.verbose == b
  {
    c.(verbose := b)
  }

  /** `with_run_details`. */
  function WithRunDetails(c: RunConfig, b: bool): (r: RunConfig)
    ensures r == c.(runDetails := r.runDetails)
    ensures r.runDetails == b
  {
    c.(runDetails := b)
  }

  /** `with_iter_details`. */
  function WithIterDetails(c: RunConfig, b: bool): (r: RunConfig)
    ensures r == c.(iterDetails := r.iterDetails)
    ensures r.iterDetails == b
  {
    c.(iterDetails := b)
  }

  /** `with_write_to_single_file`. */
  function WithWriteToSingleFile(c: RunConfig, b: bool): (r: RunConfig)
    ensures r == c.(writeEquivsToSingleFile := r.writeEquivsToSingleFile)
    ensures r.writeEquivsToSingleFile == b
  {
    c.(writeEquivsToSingleFile := b)
  }

  /** `with_stop_on_error`. */
  function WithStopOnError(c: RunConfig, b: bool): (r: RunConfig)
    ensures r == c.(stopOnError := r.stopOnError)
    ensures r.stopOnError == b
  {
    c.(stopOnError := b)
  }

  /** The stored form of a limit given on the command line. */
  function Limit(n: usize): usize {
    if n == 0 then UsizeMax else n
  }

  /** A run with limit `limit` may still take a step after `done` steps. */
  predicate Allows(limit: usize, done: nat) {
    done < limit
  }

  /** `RunConfig::default()`. */
  function Default(): RunConfig {
    RunConfig(30, 10_000, 5, false, false, false, true, false)
  }

  /** The parsed command line of cornelius/src/cli.rs. */
  datatype CliArgs = CliArgs(
    javaFiles: seq<string>,
    iterLimit: usize,
    nodeLimit: usize,
    timeLimit: nat,
    verbose: bool,
    suppressEquivFileOutput: bool,
    runDetails: bool,
    iterDetails: bool,
    singleFilePerSubjects: bool,
    stopOnError: bool)

  /** The command line with no options: the declared default values and every flag unset. */
  function DefaultArgs(files: seq<string>): CliArgs {
    CliArgs(files, 30, 10000, 5, false, false, false, false, false, false)
  }

  /** `From<CliArgs> for RunConfig`: the defaults, then one builder per option. */
  function FromArgs(args: CliArgs): (c: RunConfig)
    ensures c.iterLimit == Limit(args.iterLimit) && c.nodeLimit == Limit(args.nodeLimit)
    ensures c.iterLimit != 0 && c.nodeLimit != 0
    ensures c.timeLimitSecs == args.timeLimit
    ensures c.verbose == args.verbose && c.runDetails == args.runDetails
    ensures c.iterDetails == args.iterDetails && c.stopOnError == args.stopOnError
    ensures c.writeEquivsToSingleFile == args.singleFilePerSubjects
  {
    var c := WithNodeLimit(WithIterLimit(Default(), args.iterLimit), args.nodeLimit);
    var c := WithVerbosity(WithTimeLimit(c, args.timeLimit), args.verbose);
    var c := WithIterDetails(WithRunDetails(c, args.runDetails), args.iterDetails);
    WithStopOnError(WithWriteToSingleFile(c, args.singleFilePerSubjects), args.stopOnError)
  }

  /**
   * A limit of 0 lets the run go on for as long as a `usize` can count;
   * any other limit is kept and stops the run after exactly that many steps.
   * The stored limit is never 0, so every run may take its first step.
   */
  lemma LimitMeaning(n: usize)
    ensures Limit(n) != 0 && Allows(Limit(n), 0)
    ensures n == 0 ==> forall k: nat :: k < UsizeMax ==> Allows(Limit(n), k)
    ensures n != 0 ==> forall k: nat :: Allows(Limit(n), k) <==> k < n
    ensures Limit(Limit(n)) == Limit(n)
  {
  }

  /** Setting the same option twice keeps the last value; options set by different builders commute. */
  lemma BuildersOverride(c: RunConfig, a: usize, b: usize, t: nat)
    ensures WithIterLimit(WithIterLimit(c, a), b) == WithIterLimit(c, b)
    ensures WithNodeLimit(WithNodeLimit(c, a), b) == WithNodeLimit(c, b)
    ensures WithNodeLimit(WithIterLimit(c, a), b) == WithIterLimit(WithNodeLimit(c, b), a)
    ensures WithTimeLimit(WithIterLimit(c, a), t) == WithIterLimit(WithTimeLimit(c, t), a)
  {
  }

  /**
   * The command line's own defaults give the default configuration except
   * for one field: `RunConfig::default()` writes all equivalences of a
   * subjects file to a single file, while the unset
   * `--single-file-per-subjects` flag turns that off.
   */
  lemma DefaultArgsDiffer(files: seq<string>)
    ensures FromArgs(DefaultArgs(files)) == Default().(writeEquivsToSingleFile := false)
    ensures FromArgs(DefaultArgs(files)) != Default()
  {
  }

  /** The configuration ignores the input files and `--no-equiv-files`. */
  lemma FromArgsIgnores(args: CliArgs, files: seq<string>, suppress: bool)
    ensures FromArgs(args.(javaFiles := files, suppressEquivFileOutput := suppress)) == FromArgs(args)
  {
  }

  /** The command line that asks for `c`: limits are given as stored, `usize::MAX` included. */
  function ArgsFor(c: RunConfig): CliArgs {
    CliArgs([], c.iterLimit, c.nodeLimit, c.timeLimitSecs, c.verbose, false,
      c.runDetails, c.iterDetails, c.writeEquivsToSingleFile, c.stopOnError)
  }

  /**
   * Exactly the configurations with nonzero limits come from a command
   * line: `ArgsFor` is a right inverse of `FromArgs` on them, and a zero
   * limit is never produced.
   */
  lemma {:induction false} FromArgsOnto(c: RunConfig)
    ensures (c.iterLimit != 0 && c.nodeLimit != 0) <==> exists args :: FromArgs(args) == c
    ensures c.iterLimit != 0 && c.nodeLimit != 0 ==> FromArgs(ArgsFor(c)) == c
  {
    if c.iterLimit != 0 && c.nodeLimit != 0 {
      assert FromArgs(ArgsFor(c)) == c;
    }
  }
}
