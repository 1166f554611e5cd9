/** The command line of `prpfmt <input_file> [-o <output_file>] | [-h | --help]`,
    identical in both drivers: a decision over `argv` with three possible exits. */
module Cli {

  import opened Wrappers

  datatype ArgError =
    | MissingInput                // fewer than two arguments
    | MissingOutputPath           // `-o` is the last argument
    | InvalidArgument(arg: string) // anything else after the input path

  datatype Invocation =
    | Help
    | Error(why: ArgError)
    | Run(infile: string, outfile: Option<string>)

  predicate IsHelpFlag(a: string) {
    a == "-h" || a == "--help"
  }

  /** Result of reading the options that follow the input path. */
  datatype Scan = Scanned(outfile: Option<string>) | Rejected(why: ArgError)

  /** The options loop, read two at a time: `-o` takes the next argument as the output
      path, anything else is refused. The input path is never among the errors. */
  function ScanOptions(opts: seq<string>, outfile: Option<string>): (r: Scan)
    ensures r.Rejected? ==> r.why != MissingInput
    ensures r.Scanned? && opts != [] ==> r.outfile == Some(opts[|opts| - 1])
    decreases |opts|
  {
    if opts == [] then Scanned(outfile)
    else if opts[0] == "-o" then
      if |opts| >= 2 then ScanOptions(opts[2..], Some(opts[1])) else Rejected(MissingOutputPath)
    else Rejected(InvalidArgument(opts[0]))
  }

  /** The decision `main` takes on `argv` (with `argv[0]` the program name). */
  function Decide(argv: seq<string>): (r: Invocation)
    ensures r == Error(MissingInput) <==> |argv| < 2
    ensures r == Help <==> |argv| >= 2 && IsHelpFlag(argv[1])
    ensures r.Run? ==> |argv| >= 2 && r.infile == argv[1] && !IsHelpFlag(argv[1])
  {
    if |argv| < 2 then Error(MissingInput)
    else if IsHelpFlag(argv[1]) then Help
    else match ScanOptions(argv[2..], None)
      case Scanned(o) => Run(argv[1], o)
      case Rejected(e) => Error(e)
  }

  /** The options are a run of `-o <path>` pairs. */
  predicate WellPaired(opts: seq<string>) {
    |opts| % 2 == 0 && forall i :: 0 <= i < |opts| && i % 2 == 0 ==> opts[i] == "-o"
  }

  lemma {:induction false} ScanAcceptsExactlyPairs(opts: seq<string>, outfile: Option<string>)
    ensures ScanOptions(opts, outfile).Scanned? <==> WellPaired(opts)
    ensures WellPaired(opts) ==> ScanOptions(opts, outfile).outfile == if opts == [] then outfile else Some(opts[|opts| - 1])
    decreases |opts|
  {
    if opts != [] && opts[0] == "-o" && |opts| >= 2 {
      var rest := opts[2..];
      ScanAcceptsExactlyPairs(rest, Some(opts[1]));
      if WellPaired(rest) {
        forall i | 0 <= i < |opts| && i % 2 == 0 ensures opts[i] == "-o" {
          if i >= 2 { assert opts[i] == rest[i - 2]; }
        }
      }
      if WellPaired(opts) {
        forall i | 0 <= i < |rest| && i % 2 == 0 ensures rest[i] == "-o" {
          assert rest[i] == opts[i + 2];
        }
      }
    } else if opts != [] {
      assert !WellPaired(opts) by {
        if opts[0] == "-o" { assert |opts| == 1; } else { assert opts[0] != "-o"; }
      }
    }
  }

  /** The first option that breaks the pairing decides the error: an argument other
      than `-o` where an option is expected is invalid, and a final `-o` lacks its path. */
  lemma {:induction false} ScanRejectsFirstBadOption(opts: seq<string>, outfile: Option<string>, k: nat)
    requires k < |opts| && k % 2 == 0
    requires forall i :: 0 <= i < k && i % 2 == 0 ==> opts[i] == "-o"
    requires opts[k] != "-o" || k == |opts| - 1
    ensures ScanOptions(opts, outfile)
         == Rejected(if opts[k] != "-o" then InvalidArgument(opts[k]) else MissingOutputPath)
    decreases k
  {
    if k > 0 {
      assert opts[0] == "-o";
      var rest := opts[2..];
      forall i | 0 <= i < k - 2 && i % 2 == 0 ensures rest[i] == "-o" {
        assert rest[i] == opts[i + 2];
      }
      assert rest[k - 2] == opts[k];
      ScanRejectsFirstBadOption(rest, Some(opts[1]), k - 2);
    }
  }

  /** `main` goes on to format exactly when there are at least two arguments, the first
      is not a help flag, and the rest are `-o <path>` pairs; the input is `argv[1]`
      and the output is the last argument if there is any `-o`, standard output otherwise. */
  lemma RunExactlyWhenWellFormed(argv: seq<string>)
    ensures Decide(argv).Run? <==> |argv| >= 2 && !IsHelpFlag(argv[1]) && WellPaired(argv[2..])
    ensures Decide(argv).Run? ==> Decide(argv) == Run(argv[1], if |argv| == 2 then None else Some(argv[|argv| - 1]))
  {
    if |argv| >= 2 {
      ScanAcceptsExactlyPairs(argv[2..], None);
    }
  }

  /** `-o -o` names the file `-o`: the value after `-o` is consumed without being read
      as an option. */
  lemma OutputNamedDashO(prog: string, infile: string)
    requires !IsHelpFlag(infile)
    ensures Decide([prog, infile, "-o", "-o"]) == Run(infile, Some("-o"))
  {
    assert [prog, infile, "-o", "-o"][2..] == ["-o", "-o"];
    assert ["-o", "-o"][2..] == [];
  }

  /** When `-o` is given again, the last one wins. */
  lemma LastOutputWins(argv: seq<string>, path: string)
    requires Decide(argv).Run?
    ensures Decide(argv + ["-o", path]) == Run(argv[1], Some(path))
  {
    RunExactlyWhenWellFormed(argv);
    var opts := argv[2..];
    var opts' := (argv + ["-o", path])[2..];
    assert opts' == opts + ["-o", path];
    forall i | 0 <= i < |opts'| && i % 2 == 0 ensures opts'[i] == "-o" {
      if i < |opts| { assert opts'[i] == opts[i]; }
    }
    RunExactlyWhenWellFormed(argv + ["-o", path]);
  }

  /** An accepted command line followed by a lone `-o` is refused: the path is missing. */
  lemma TrailingOutputFlagIsError(argv: seq<string>)
    requires Decide(argv).Run?
    ensures Decide(argv + ["-o"]) == Error(MissingOutputPath)
  {
    StrayAfterAccepted(argv, "-o");
  }

  /** An accepted command line followed by anything but `-o` is refused, naming that argument. */
  lemma StrayArgumentIsError(argv: seq<string>, arg: string)
    requires Decide(argv).Run? && arg != "-o"
    ensures Decide(argv + [arg]) == Error(InvalidArgument(arg))
  {
    StrayAfterAccepted(argv, arg);
  }

  /** One more argument after well-paired options is the first bad option. */
  lemma StrayAfterAccepted(argv: seq<string>, arg: string)
    requires Decide(argv).Run?
    ensures Decide(argv + [arg]) == Error(if arg != "-o" then InvalidArgument(arg) else MissingOutputPath)
  {
    RunExactlyWhenWellFormed(argv);
    var opts := argv[2..];
    var opts' := (argv + [arg])[2..];
    assert opts' == opts + [arg];
    forall i | 0 <= i < |opts| && i % 2 == 0 ensures opts'[i] == "-o" {
      assert opts'[i] == opts[i];
    }
    ScanRejectsFirstBadOption(opts', None, |opts|);
    assert (argv + [arg])[1] == argv[1];
  }

  /** A help flag in first position wins whatever follows it, even arguments that
      would otherwise be refused. */
  lemma HelpWinsOverEverything(argv: seq<string>, rest: seq<string>)
    requires |argv| >= 2 && IsHelpFlag(argv[1])
    ensures Decide(argv + rest) == Help
  {
    assert (argv + rest)[1] == argv[1];
  }

  /** A help flag is only recognised in first position: after the input path it is an
      argument like any other, and refused. */
  lemma HelpFlagOnlyFirst(prog: string, infile: string, flag: string, rest: seq<string>)
    requires !IsHelpFlag(infile) && IsHelpFlag(flag)
    ensures Decide([prog, infile, flag] + rest) == Error(InvalidArgument(flag))
  {
    var argv := [prog, infile, flag] + rest;
    assert argv[1] == infile && argv[2..] == [flag] + rest;
    assert ([flag] + rest)[0] == flag;
  }

  /** The argument loop of `main`: `i` starts at 2 and skips one extra step past the
      value of each `-o`; the first bad argument ends the program. */
  method ParseArgs(argv: seq<string>) returns (r: Invocation)
    ensures r == Decide(argv)
  {
    if |argv| < 2 {
      return Error(MissingInput);
    }
    if argv[1] == "-h" || argv[1] == "--help" {
      return Help;
    }
    var infile := argv[1];
    var outfile: Option<string> := None;
    var i := 2;
    while i < |argv|
      invariant 2 <= i <= |argv|
      invariant ScanOptions(argv[2..], None) == ScanOptions(argv[i..], outfile)
    {
      if argv[i] == "-o" {
        if i + 1 < |argv| {
          outfile := Some(argv[i + 1]);
          assert argv[i..][2..] == argv[i + 2..];
          i := i + 1;
        } else {
          return Error(MissingOutputPath);
        }
      } else {
        return Error(InvalidArgument(argv[i]));
      }
      i := i + 1;
    }
    assert argv[i..] == [];
    r := Run(infile, outfile);
  }
}
