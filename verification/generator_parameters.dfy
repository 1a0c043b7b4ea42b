/** The command-line parameters of the generator: the record `generator_parameters`
    keeps, `set_argument` (one parsed `--name value` pair), and `validate_params`,
    which collects every problem before it gives up. Parsing `argv` with
    `getopt_long` is not part of this model; a parsed command line is a sequence of
    name/value pairs. */
module GeneratorParameters {
  import opened Results

  const ParamEnv := "env"
  const ParamFile := "file"
  const ParamDir := "dir"
  const ParamOut := "out"
  const ParamStdout := "stdout"
  const ParamDefiner := "definer"
  const ParamCaseSensitive := "case-sensitive"
  const ValueFalse := "false"

  /** The names `set_argument` recognises. */
  predicate IsKnownName(name: string) {
    || name == ParamEnv || name == ParamFile || name == ParamDir || name == ParamOut
    || name == ParamStdout || name == ParamDefiner || name == ParamCaseSensitive
  }

  datatype Parameters = Parameters(
    environmentFiles: seq<string>,
    templateFiles: seq<string>,
    templateDirectory: string,
    outputFiles: seq<string>,
    outputDirectory: string,
    usesDirectory: bool,
    outputToStdout: bool,
    definer: string,
    isCaseSensitive: bool,
    displayHelp: bool)

  /** The field initialisers of the class: no files, definer "%", case-insensitive
      comparisons off, and help shown until some argument says otherwise. */
  const Defaults := Parameters([], [], [], [], [], false, false, "%", false, true)

  // ---------------------------------------------------------------------------
  // set_argument
  // ---------------------------------------------------------------------------

  /** `set_argument`: an empty value is ignored altogether; any other value
      switches help off, and an unknown name switches it back on and does nothing
      else. The lists grow at the end, the other fields are overwritten, and a
      flag is on unless its value is exactly "false". */
  function SetArgument(p: Parameters, name: string, value: string): (r: Parameters)
    ensures value == [] ==> r == p
    ensures value != [] && !IsKnownName(name) ==> r == p.(displayHelp := true)
    ensures value != [] && IsKnownName(name) ==> !r.displayHelp
    ensures r.environmentFiles == p.environmentFiles + (if value != [] && name == ParamEnv then [value] else [])
    ensures r.templateFiles == p.templateFiles + (if value != [] && name == ParamFile then [value] else [])
    ensures r.outputFiles == p.outputFiles + (if value != [] && name == ParamOut then [value] else [])
    ensures r.templateDirectory == if value != [] && name == ParamDir then value else p.templateDirectory
    ensures r.definer == if value != [] && name == ParamDefiner then value else p.definer
    ensures r.outputToStdout == if value != [] && name == ParamStdout then value != ValueFalse else p.outputToStdout
    ensures r.isCaseSensitive ==
              if value != [] && name == ParamCaseSensitive then value != ValueFalse else p.isCaseSensitive
    ensures r.outputDirectory == p.outputDirectory && r.usesDirectory == p.usesDirectory
  {
    if value == [] then p
    else
      var q := p.(displayHelp := false);
      if name == ParamEnv then q.(environmentFiles := q.environmentFiles + [value])
      else if name == ParamFile then q.(templateFiles := q.templateFiles + [value])
      else if name == ParamDir then q.(templateDirectory := value)
      else if name == ParamOut then q.(outputFiles := q.outputFiles + [value])
      else if name == ParamStdout then q.(outputToStdout := value != ValueFalse)
      else if name == ParamDefiner then q.(definer := value)
      else if name == ParamCaseSensitive then q.(isCaseSensitive := value != ValueFalse)
      else q.(displayHelp := true)
  }

  /** A parsed command line applied argument by argument, as `get_params` does. */
  function ApplyArguments(p: Parameters, args: seq<(string, string)>): Parameters
    decreases |args|
  {
    if args == [] then p else ApplyArguments(SetArgument(p, args[0].0, args[0].1), args[1..])
  }

  /** The non-empty values given to `name`, in command-line order. */
  function ValuesFor(args: seq<(string, string)>, name: string): seq<string>
    decreases |args|
  {
    if args == [] then []
    else (if args[0].0 == name && args[0].1 != [] then [args[0].1] else []) + ValuesFor(args[1..], name)
  }

  /** The last non-empty value given to `name`, if any. */
  function LastValueFor(args: seq<(string, string)>, name: string): (r: Option<string>)
    ensures r.Some? ==> r.value != [] && r.value in ValuesFor(args, name)
    decreases |args|
  {
    if args == [] then None
    else
      match LastValueFor(args[1..], name)
      case Some(v) => Some(v)
      case None => if args[0].0 == name && args[0].1 != [] then Some(args[0].1) else None
  }

  /** The name of the last argument that has a non-empty value, if any. */
  function LastNamed(args: seq<(string, string)>): Option<string>
    decreases |args|
  {
    if args == [] then None
    else
      match LastNamed(args[1..])
      case Some(n) => Some(n)
      case None => if args[0].1 != [] then Some(args[0].0) else None
  }

  function Overwritten(previous: string, last: Option<string>): string {
    match last
    case None => previous
    case Some(v) => v
  }

  function Flag(previous: bool, last: Option<string>): bool {
    match last
    case None => previous
    case Some(v) => v != ValueFalse
  }

  lemma ConcatAssociates<T>(a: seq<T>, b: seq<T>, c: seq<T>)
    ensures a + b + c == a + (b + c)
  {
  }

  /** Repeated `--env`, `--file` and `--out` arguments are kept in the order given. */
  lemma {:induction false} ListsKeepOrder(p: Parameters, args: seq<(string, string)>)
    ensures ApplyArguments(p, args).environmentFiles == p.environmentFiles + ValuesFor(args, ParamEnv)
    ensures ApplyArguments(p, args).templateFiles == p.templateFiles + ValuesFor(args, ParamFile)
    ensures ApplyArguments(p, args).outputFiles == p.outputFiles + ValuesFor(args, ParamOut)
    decreases |args|
  {
    if args != [] {
      var (n, v) := args[0];
      var q := SetArgument(p, n, v);
      ListsKeepOrder(q, args[1..]);
      ConcatAssociates(p.environmentFiles, if v != [] && n == ParamEnv then [v] else [], ValuesFor(args[1..], ParamEnv));
      ConcatAssociates(p.templateFiles, if v != [] && n == ParamFile then [v] else [], ValuesFor(args[1..], ParamFile));
      ConcatAssociates(p.outputFiles, if v != [] && n == ParamOut then [v] else [], ValuesFor(args[1..], ParamOut));
    } else {
      assert p.environmentFiles + [] == p.environmentFiles;
      assert p.templateFiles + [] == p.templateFiles;
      assert p.outputFiles + [] == p.outputFiles;
    }
  }

  /** For the overwritten fields the last non-empty value wins; an empty value
      never resets anything. */
  lemma {:induction false} LastValueWins(p: Parameters, args: seq<(string, string)>)
    ensures ApplyArguments(p, args).templateDirectory == Overwritten(p.templateDirectory, LastValueFor(args, ParamDir))
    ensures ApplyArguments(p, args).definer == Overwritten(p.definer, LastValueFor(args, ParamDefiner))
    ensures ApplyArguments(p, args).outputToStdout == Flag(p.outputToStdout, LastValueFor(args, ParamStdout))
    ensures ApplyArguments(p, args).isCaseSensitive ==
              Flag(p.isCaseSensitive, LastValueFor(args, ParamCaseSensitive))
    decreases |args|
  {
    if args != [] {
      LastValueWins(SetArgument(p, args[0].0, args[0].1), args[1..]);
    }
  }

  /** Help is shown exactly when no argument carried a value and the starting
      record asked for help, or when the last argument with a value has a name
      `set_argument` does not know. */
  lemma {:induction false} HelpFollowsLastArgument(p: Parameters, args: seq<(string, string)>)
    ensures ApplyArguments(p, args).displayHelp ==
              match LastNamed(args)
              case None => p.displayHelp
              case Some(n) => !IsKnownName(n)
    decreases |args|
  {
    if args != [] {
      HelpFollowsLastArgument(SetArgument(p, args[0].0, args[0].1), args[1..]);
    }
  }

  /** From the defaults, help is shown iff no argument with a value was given or
      the last one is unknown. */
  lemma DefaultsShowHelp(args: seq<(string, string)>)
    ensures ApplyArguments(Defaults, args).displayHelp <==> LastNamed(args).None? || !IsKnownName(LastNamed(args).value)
  {
    HelpFollowsLastArgument(Defaults, args);
  }

  // ---------------------------------------------------------------------------
  // validate_params
  // ---------------------------------------------------------------------------

  /** The problems `validate_params` reports, in the order it reports them. */
  datatype Problem =
    | NoEnvironmentFile
    | NoTemplates          // neither --file nor --dir
    | DirectoryAndFiles    // both --file and --dir
    | NoOutputs            // neither --out nor --stdout
    | CountMismatch        // file mode: as many --out as --file are needed

  function Rank(problem: Problem): nat {
    match problem
    case NoEnvironmentFile => 0
    case NoTemplates => 1
    case DirectoryAndFiles => 2
    case NoOutputs => 3
    case CountMismatch => 4
  }

  /** What `validate_params` leaves behind: the updated record, and the problems
      it collected; it throws iff there is at least one. */
  datatype Validation = Validation(params: Parameters, problems: seq<Problem>) {
    predicate Throws() {
      problems != []
    }
  }

  /** One check of `validate_params`: its message is added after the earlier ones
      when the condition holds. */
  function Report(problems: seq<Problem>, condition: bool, problem: Problem): (r: seq<Problem>)
    ensures InReportOrder(problems) && (forall x :: x in problems ==> Rank(x) < Rank(problem)) ==>
              InReportOrder(r) && forall x :: x in r ==> Rank(x) <= Rank(problem)
  {
    if condition then problems + [problem] else problems
  }

  /** Each message comes after the ones of the earlier checks. */
  predicate InReportOrder(problems: seq<Problem>) {
    forall i :: 0 <= i < |problems| - 1 ==> Rank(problems[i]) < Rank(problems[i + 1])
  }

  /** `validate_params`. In directory mode it reads `output_files[0]` before it
      throws, whatever it has collected, so a directory without an output is
      outside what the program defines. */
  function ValidateParams(p: Parameters): (r: Validation)
    requires p.usesDirectory || p.templateDirectory != [] ==> p.outputFiles != []
    ensures r.params.usesDirectory == (p.usesDirectory || p.templateDirectory != [])
    ensures r.params.outputDirectory == if r.params.usesDirectory then p.outputFiles[0] else p.outputDirectory
    ensures r.params == p.(usesDirectory := r.params.usesDirectory, outputDirectory := r.params.outputDirectory)
    ensures InReportOrder(r.problems)
  {
    var usesDirectory := p.usesDirectory || p.templateDirectory != [];
    var problems := Report([], p.environmentFiles == [], NoEnvironmentFile);
    var problems := Report(problems, p.templateFiles == [] && !usesDirectory, NoTemplates);
    var problems := Report(problems, p.templateFiles != [] && usesDirectory, DirectoryAndFiles);
    var problems := Report(problems, p.outputFiles == [] && !p.outputToStdout, NoOutputs);
    var problems := Report(problems, !usesDirectory && p.outputFiles != [] && |p.templateFiles| != |p.outputFiles|,
                           CountMismatch);
    var outputDirectory := if usesDirectory then p.outputFiles[0] else p.outputDirectory;
    Validation(p.(usesDirectory := usesDirectory, outputDirectory := outputDirectory), problems)
  }

  /** The input checks: a missing environment file, and neither or both of
      `--file` and `--dir`. */
  lemma ValidateReportsInputs(p: Parameters)
    requires p.usesDirectory || p.templateDirectory != [] ==> p.outputFiles != []
    ensures var r := ValidateParams(p);
            && (NoEnvironmentFile in r.problems <==> p.environmentFiles == [])
            && (NoTemplates in r.problems <==> p.templateFiles == [] && !r.params.usesDirectory)
            && (DirectoryAndFiles in r.problems <==> p.templateFiles != [] && r.params.usesDirectory)
  {
  }

  /** The output checks: nowhere to write, and in file mode with outputs named, a
      different number of outputs than templates. */
  lemma ValidateReportsOutputs(p: Parameters)
    requires p.usesDirectory || p.templateDirectory != [] ==> p.outputFiles != []
    ensures var r := ValidateParams(p);
            && (NoOutputs in r.problems <==> p.outputFiles == [] && !p.outputToStdout)
            && (CountMismatch in r.problems <==>
                  !r.params.usesDirectory && p.outputFiles != [] && |p.templateFiles| != |p.outputFiles|)
  {
  }

  /** A usable configuration: environment files, exactly one kind of input,
      somewhere to write, and in file mode one output per template when outputs
      are named. */
  predicate WellFormed(p: Parameters) {
    var directory := p.usesDirectory || p.templateDirectory != [];
    && p.environmentFiles != []
    && (p.templateFiles != [] <==> !directory)
    && (p.outputFiles != [] || p.outputToStdout)
    && (!directory && p.outputFiles != [] ==> |p.templateFiles| == |p.outputFiles|)
  }

  /** `validate_params` throws exactly when the configuration is not usable. */
  lemma ValidateAcceptsWellFormed(p: Parameters)
    requires p.usesDirectory || p.templateDirectory != [] ==> p.outputFiles != []
    ensures !ValidateParams(p).Throws() <==> WellFormed(p)
  {
    var r := ValidateParams(p);
    ValidateReportsInputs(p);
    ValidateReportsOutputs(p);
    if r.Throws() {
      assert r.problems[0] in r.problems;
    }
  }

  /** From the defaults, `uses_directory` ends up set iff a directory was given. */
  lemma DirectoryModeFromArguments(args: seq<(string, string)>)
    requires var p := ApplyArguments(Defaults, args); p.usesDirectory || p.templateDirectory != [] ==> p.outputFiles != []
    ensures ValidateParams(ApplyArguments(Defaults, args)).params.usesDirectory <==> LastValueFor(args, ParamDir).Some?
  {
    LastValueWins(Defaults, args);
    UsesDirectoryUntouched(Defaults, args);
  }

  lemma {:induction false} UsesDirectoryUntouched(p: Parameters, args: seq<(string, string)>)
    ensures ApplyArguments(p, args).usesDirectory == p.usesDirectory
    decreases |args|
  {
    if args != [] {
      UsesDirectoryUntouched(SetArgument(p, args[0].0, args[0].1), args[1..]);
    }
  }
}
