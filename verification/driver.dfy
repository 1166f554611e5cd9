/** The two `main` functions around the printers. prpfmt/main.c checks the parse and
    hands the tree to the formatting engine with a fresh `PrpfmtState`; prpfmt/prpfmt.c
    is the older driver that copies the tree back out verbatim. The file system and
    tree-sitter are given as a `Host` value: what each call into them returns. */
module Driver {

  import opened Wrappers
  import opened CStrings
  import opened SyntaxTree
  import opened Cli
  import Verbatim

  /** What the outside world answers to the calls `main` makes. */
  datatype Host = Host(
    canOpenForWriting: string -> bool,       // `fopen(path, "w")` succeeds
    languageCompatible: bool,                // `ts_parser_set_language` succeeds
    readFile: string -> Option<seq<char>>,   // `file_to_string`: the file's bytes, or None when it fails
    parse: seq<char> -> Node)                // root node of `ts_parser_parse_string` once a language is set

  /** The parser only builds trees whose ranges lie inside the text it parsed. */
  ghost predicate ParserKeepsRanges(host: Host) {
    forall text :: WithinSource(host.parse(text), |text|)
  }

  datatype Sink = Stdout | File(path: string)

  /** Messages `main` writes to standard error. */
  datatype Diagnostic =
    | Usage(why: ArgError)
    | CannotOpenOutput(path: string)
    | IncompatibleLanguage
    | CannotReadInput(path: string)
    | Unparsable

  /** The formatting engine's state as `main` initialises it. */
  datatype PrpfmtState = PrpfmtState(source: seq<char>, outfile: Sink, indentLevel: int, indentSize: int)

  datatype Action =
    | NoOutput
    | PrintTree(root: Node, state: PrpfmtState)   // `print_tree(tree, &state)` is called
    | Wrote(sink: Sink, text: seq<char>)          // this text is written to the sink

  /** How a run ends: an exit status after the messages and the action, or a call of
      `ts_tree_root_node` on the NULL tree that a parser without a language returns,
      whose behaviour C leaves undefined. */
  datatype Outcome =
    | Outcome(exitCode: int, helpPrinted: bool, diagnostics: seq<Diagnostic>, action: Action)
    | NullTreeDereference(diagnostics: seq<Diagnostic>)

  function SinkFor(outfile: Option<string>): (s: Sink)
    ensures s == Stdout <==> outfile == None
    ensures outfile.Some? ==> s == File(outfile.value)
  {
    match outfile
    case None => Stdout
    case Some(path) => File(path)
  }

  /** The destination opens: standard output always does, a named file when `fopen` succeeds. */
  predicate SinkOpens(host: Host, outfile: Option<string>) {
    outfile.None? || host.canOpenForWriting(outfile.value)
  }

  /** The command line asks for a run and its output destination opened. */
  predicate Proceeds(argv: seq<string>, host: Host) {
    Decide(argv).Run? && SinkOpens(host, Decide(argv).outfile)
  }

  /** `main` of prpfmt/main.c. */
  method FormatMain(argv: seq<string>, host: Host) returns (o: Outcome)
    ensures o.Outcome? && (o.exitCode == 0 || o.exitCode == 1)
    ensures o.helpPrinted <==> !Decide(argv).Run?
    ensures Decide(argv) == Help ==> o == Outcome(0, true, [], NoOutput)
    ensures Decide(argv).Error? ==> o == Outcome(1, true, [Usage(Decide(argv).why)], NoOutput)
    ensures Decide(argv).Run? && !SinkOpens(host, Decide(argv).outfile) ==>
              o == Outcome(1, false, [CannotOpenOutput(Decide(argv).outfile.value)], NoOutput)
    ensures Proceeds(argv, host) && !host.languageCompatible ==>
              o == Outcome(1, false, [IncompatibleLanguage], NoOutput)
    ensures Proceeds(argv, host) && host.languageCompatible && host.readFile(Decide(argv).infile).None? ==>
              o == Outcome(1, false, [CannotReadInput(Decide(argv).infile)], NoOutput)
    ensures o.action.Wrote? == false
    ensures o.exitCode == 0 <==> (Decide(argv) == Help || o.action.PrintTree?)
    ensures o.action.PrintTree? <==>
              Proceeds(argv, host) && host.languageCompatible &&
              host.readFile(Decide(argv).infile).Some? &&
              !HasError(host.parse(CStr(host.readFile(Decide(argv).infile).value)))
    ensures o.action.PrintTree? ==>
              var content := host.readFile(Decide(argv).infile).value;
              o.action.root == host.parse(CStr(content)) && !HasError(o.action.root) &&
              o.action.state == PrpfmtState(content, SinkFor(Decide(argv).outfile), 0, 2) &&
              o.diagnostics == []
    ensures Proceeds(argv, host) && host.languageCompatible &&
            host.readFile(Decide(argv).infile).Some? &&
            HasError(host.parse(CStr(host.readFile(Decide(argv).infile).value)))
            ==> o == Outcome(1, false, [Unparsable], NoOutput)
  {
    var inv := ParseArgs(argv);
    if !inv.Run? {
      if inv.Help? {
        return Outcome(0, true, [], NoOutput);
      }
      return Outcome(1, true, [Usage(inv.why)], NoOutput);
    }
    var outfile := Stdout;
    if inv.outfile.Some? {
      if !host.canOpenForWriting(inv.outfile.value) {
        return Outcome(1, false, [CannotOpenOutput(inv.outfile.value)], NoOutput);
      }
      outfile := File(inv.outfile.value);
    }
    if !host.languageCompatible {
      return Outcome(1, false, [IncompatibleLanguage], NoOutput);
    }
    var content := host.readFile(inv.infile);
    if content.None? {
      return Outcome(1, false, [CannotReadInput(inv.infile)], NoOutput);
    }
    // The parser is given `strlen(source_code)` bytes; the state keeps the whole buffer.
    var root := host.parse(CStr(content.value));
    if HasError(root) {
      return Outcome(1, false, [Unparsable], NoOutput);
    }
    var state := PrpfmtState(content.value, outfile, 0, 2);
    o := Outcome(0, false, [], PrintTree(root, state));
  }

  /** `main` of prpfmt/prpfmt.c: the same command line, but an incompatible grammar is
      only reported, the parse is not checked, and the tree is printed verbatim with
      `last_printed_end` starting at 0. Without a language the parser returns no tree,
      and `main` goes on to ask that NULL tree for its root. */
  method VerbatimMain(argv: seq<string>, host: Host) returns (o: Outcome)
    requires ParserKeepsRanges(host)
    ensures o.Outcome? ==> (o.exitCode == 0 || o.exitCode == 1) && !o.action.PrintTree?
    ensures o.Outcome? ==> (o.helpPrinted <==> !Decide(argv).Run?)
    ensures Decide(argv) == Help ==> o == Outcome(0, true, [], NoOutput)
    ensures Decide(argv).Error? ==> o == Outcome(1, true, [Usage(Decide(argv).why)], NoOutput)
    ensures Decide(argv).Run? && !SinkOpens(host, Decide(argv).outfile) ==>
              o == Outcome(1, false, [CannotOpenOutput(Decide(argv).outfile.value)], NoOutput)
    ensures Proceeds(argv, host) && host.readFile(Decide(argv).infile).None? ==>
              o == Outcome(1, false,
                           (if host.languageCompatible then [] else [IncompatibleLanguage]) +
                           [CannotReadInput(Decide(argv).infile)], NoOutput)
    ensures o.NullTreeDereference? <==>
              Proceeds(argv, host) && host.readFile(Decide(argv).infile).Some? && !host.languageCompatible
    ensures o.NullTreeDereference? ==> o.diagnostics == [IncompatibleLanguage]
    ensures o.Outcome? && o.action.Wrote? <==>
              Proceeds(argv, host) && host.readFile(Decide(argv).infile).Some? && host.languageCompatible
    ensures o.Outcome? && o.action.Wrote? ==>
              var source := CStr(host.readFile(Decide(argv).infile).value);
              var root := host.parse(source);
              o.exitCode == 0 && !o.helpPrinted && o.diagnostics == [] &&
              o.action.sink == SinkFor(Decide(argv).outfile) &&
              o.action.text == Verbatim.EmitTree(source, root, 0).text &&
              (InSourceOrder(Leaves(root), 0) ==> o.action.text <= source)
  {
    var inv := ParseArgs(argv);
    if !inv.Run? {
      if inv.Help? {
        return Outcome(0, true, [], NoOutput);
      }
      return Outcome(1, true, [Usage(inv.why)], NoOutput);
    }
    var outfile := Stdout;
    if inv.outfile.Some? {
      if !host.canOpenForWriting(inv.outfile.value) {
        return Outcome(1, false, [CannotOpenOutput(inv.outfile.value)], NoOutput);
      }
      outfile := File(inv.outfile.value);
    }
    var diagnostics: seq<Diagnostic> := [];
    if !host.languageCompatible {
      // Reported, but the run goes on.
      diagnostics := diagnostics + [IncompatibleLanguage];
    }
    var content := host.readFile(inv.infile);
    if content.None? {
      return Outcome(1, false, diagnostics + [CannotReadInput(inv.infile)], NoOutput);
    }
    if !host.languageCompatible {
      return NullTreeDereference(diagnostics);
    }
    // The traversal only reads inside the parsed prefix, which is `strlen(source_code)` long.
    var source := CStr(content.value);
    var root := host.parse(source);
    var printer := new Verbatim.Printer(source);
    printer.TraverseAndPrint(root);
    if InSourceOrder(Leaves(root), 0) {
      Verbatim.VerbatimOutputIsSourcePrefix(source, root);
    }
    o := Outcome(0, false, diagnostics, Wrote(outfile, printer.out));
  }
}
