/**
 * What `Main` does with a parsed configuration: it constructs the
 * disassembler with the four settings and runs it either on the console or
 * on an output file whose text encoding follows the compatibility level.
 *
 * The disassembler and the console are outside the model: the engine run
 * is the value `Invocation` (its settings and the sink it writes to), and
 * the console's current output encoding is a parameter.
 */
module Invocation {
  import opened Wrappers
  import opened Options
  import opened OptionProperties

  /** A text encoding as far as the front end tells them apart. */
  datatype TextEncoding = Utf8(preamble: bool) | Other(name: string)

  /** Where the disassembled text goes. */
  datatype Sink = ConsoleOut | OutputFile(path: string, append: bool, encoding: TextEncoding)

  /** The disassembler constructed with `engine` and asked to save its text to `sink`. */
  datatype Invocation = Invocation(engine: Config, sink: Sink)

  /** What a run of the program amounts to. */
  datatype Action = ShowUsage | Disassemble(run: Invocation)

  /**
   * The encoding of an output file: UTF-8 with its byte-order mark by
   * default, UTF-8 without it for the versions before 4.5, and the
   * console's encoding for 4.5.
   */
  function SelectEncoding(level: CompatLevel, console: TextEncoding): (enc: TextEncoding)
    ensures level != V45 ==> enc.Utf8? && (enc.preamble <==> level == CompatLevel.None)
    ensures level == V45 ==> enc == console
  {
    match level
    case None => Utf8(true)
    case V20 | V40 => Utf8(false)
    case V45 => console
  }

  /** The console's encoding has a say in the output file only under version 4.5. */
  lemma ConsoleEncodingOnlyForV45(level: CompatLevel, c1: TextEncoding, c2: TextEncoding)
    ensures SelectEncoding(level, c1) == SelectEncoding(level, c2) <==> level != V45 || c1 == c2
  {
  }

  /** The engine gets the configuration unchanged; the sink is a fresh (overwritten) file exactly when an output file was named. */
  function Plan(config: Config, console: TextEncoding): (inv: Invocation)
    ensures inv.engine == config
    ensures inv.sink.OutputFile? <==> config.outputFile.Some?
    ensures inv.sink.OutputFile? ==>
      inv.sink.path == config.outputFile.value && !inv.sink.append
      && inv.sink.encoding == SelectEncoding(config.compatLevel, console)
  {
    if config.outputFile.Some? then
      Invocation(config, OutputFile(config.outputFile.value, false, SelectEncoding(config.compatLevel, console)))
    else
      Invocation(config, ConsoleOut)
  }

  /**
   * The whole of `Main`: parse the arguments, and either stop after the
   * usage text or run the disassembler as planned.  Nothing is planned for
   * an argument list the parser rejects.
   */
  method Run(args: seq<string>, console: TextEncoding) returns (action: Action)
    ensures action.ShowUsage? <==> Parse(args).Usage?
    ensures action.Disassemble? ==> action.run == Plan(Parse(args).config, console)
  {
    var outcome := ParseArguments(args);
    if outcome.Usage? {
      return ShowUsage;
    }
    return Disassemble(Plan(outcome.config, console));
  }

  /**
   * End to end: for an accepted argument list, the engine reads the single
   * positional token, and the output goes to the file named by the last
   * `out` option, encoded for the last `compat` level, or to the console.
   */
  lemma OutputPlanFromArguments(args: seq<string>, console: TextEncoding)
    requires Parse(args).Parsed?
    ensures Positionals(args) == [Plan(Parse(args).config, console).engine.inputFile]
    ensures Plan(Parse(args).config, console).sink ==
      if LastOut(args).Some? then OutputFile(LastOut(args).value, false, SelectEncoding(LastCompat(args), console))
      else ConsoleOut
  {
    ParseCharacterization(args);
  }
}
