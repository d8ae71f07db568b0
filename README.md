# ikdasm command-line front end, modelled in Dafny

ikdasm is an IL disassembler built on IKVM.Reflection. This project models its
command-line front end, `Program.cs`. That front end parses the process
arguments into a configuration. The configuration holds the input file, an
optional output file, a compatibility level (`None`, `2.0`, `4.0` or `4.5`)
and a diff-mode flag. From it the front end picks where the disassembled text
goes and in which encoding. Then it hands over to the disassembly engine.

The model has six modules:

- `Wrappers` (wrappers.dfy): `Option`, which stands for a C# string that may be null.
- `Text` (text.dfy): ASCII case folding. It also models the region comparison
  `String.Compare(a, ia, b, ib, len, ignoreCase)`, which looks at at most `len`
  characters of each string and fewer where a string ends first.
- `Options` (options.dfy): the parser.
  - `Step` is one turn of `Main`'s `foreach` loop over its four locals.
  - `Scan` runs that loop over a prefix of the arguments. A `None` result is an
    early `return` after printing usage.
  - `Parse` is the loop followed by the missing-input check.
  - `ParseArguments` is the loop itself, written as a `while` loop on the
    source's own locals. It is proved equal to `Parse`.
  - `TryMatchOption` models the matcher of the same name.
- `OptionProperties` (option_properties.dfy): a description of the parser that
  does not mention the loop. It covers which argument lists are accepted,
  which token fills each configuration field, and the tie-break rules.
- `Invocation` (invocation.dfy): the encoding `switch`, the choice between
  console and file, and `Run`, which is the whole of `Main`. The engine run is
  a value: the configuration given to the `Disassembler` constructor plus the
  sink that `Save` writes to. The console's current output encoding is a
  parameter.
- `Scenarios` (scenarios.dfy): a few concrete command lines, worked through
  the model.

Two behaviours of the code worth knowing:

- **`-diffmode:x` sets diff mode.** Program.cs:67 compares at most the 8
  characters after the prefix, so any option whose body starts with
  `diffmode`, in any letter case, sets the flag. See `DiffModeIgnoresTail`
  and `Scenarios.DiffModeWithTrailingText`.
- **`-out:` and `-compat=` are usage errors.** Program.cs:127 requires
  `arg.Length > key.Length + 2`, so an option with an empty value matches no
  option at all. See `Scenarios.EmptyOutputValue`.

## Model

| member | source | states |
|---|---|---|
| Text.RegionEqualsIgnoreCase | Program.cs:127 | Within both strings the region comparison is case-insensitive equality of the two slices. If the first string ends before `len` characters while the second does not, the comparison fails. |
| Options.IsOption | Program.cs:42 | A definition with no contract: a token is an option when it starts with `-` or `/`. `ParseCharacterization` and the positional lemmas state what follows from it. |
| Options.MatchesDiffMode | Program.cs:67 | A definition with no contract: the 8-character flag comparison. `DiffModeRule` and `DiffModeIgnoresTail` state its properties. |
| Options.ParseCompat | Program.cs:51-65 | A definition with no contract: the `switch` on the `compat` value. `CompatRoundTrip` states its properties. |
| Options.Step | Program.cs:42-88 | A definition with no contract: one turn of the loop, with `None` for an early usage return. `ScanCharacterization` states what a run of steps yields. |
| Options.Scan | Program.cs:40-89 | A definition with no contract: the loop over a prefix of the arguments. `AbortIsFinal` and `ScanCharacterization` state its properties. |
| Options.Parse | Program.cs:36-94 | A definition with no contract: the loop followed by the missing-input check. `ParseArguments` is proved equal to it, and `ParseCharacterization` characterises it. |
| Options.TryMatchOption | Program.cs:125-134 | Matches exactly when the argument is longer than the key plus 2, the character after the key is `:` or `=`, and the key's region equals the key ignoring case. The value is the rest of the argument after the separator; it is never empty, and the argument is the matched head followed by the value. |
| Options.ParseArguments | Program.cs:36-94 | The imperative loop, with its early returns and the final missing-input check, yields exactly `Parse(args)`. |
| Options.AbortIsFinal | Program.cs:63-64 | Once a prefix of the arguments has taken an early usage return, the whole argument list does too. |
| OptionProperties.OptionKindsDisjoint | Program.cs:45-75 | No token is matched by two of `out`, `compat` and `diffmode`, so the order in which they are tried decides nothing. |
| OptionProperties.OptionSpelling | Program.cs:125-134 | With either prefix, either separator and any letter case of the name, `TryMatchOption` returns the non-empty value. This is the inverse of the matcher. |
| OptionProperties.CompatRoundTrip | Program.cs:51-65 | A `compat` value selects a level exactly when it is the exact literal `2.0`, `4.0` or `4.5` of that level. `None` is never selected. |
| OptionProperties.DiffModeRule | Program.cs:67 | The flag test holds exactly when the token has at least 9 characters and characters 1 to 8 equal `diffmode` ignoring case. So `-diff` does not set it. |
| OptionProperties.DiffModeIgnoresTail | Program.cs:67 | Any text appended to a token that sets diff mode still sets it. |
| OptionProperties.ScanCharacterization | Program.cs:40-89 | After any prefix the loop has aborted unless every option is known and at most one positional was seen. Otherwise its locals are: the positional, the last `out` value, the last `compat` level and whether any token asked for diff mode. |
| OptionProperties.ParseCharacterization | Program.cs:36-94 | The arguments are accepted exactly when every option-shaped token is a known option and there is exactly one positional. The configuration is then made of that positional, the last `out` value (absent by default), the last `compat` level (`None` by default) and whether some token asks for diff mode (false by default). |
| OptionProperties.UnknownOptionAborts | Program.cs:71-75 | One option-shaped token that is not a known option makes the whole argument list a usage error, wherever the token stands. |
| OptionProperties.MissingInputAborts | Program.cs:90-94 | With no positional token the outcome is usage. |
| OptionProperties.SecondPositionalAborts | Program.cs:77-88 | Two positional tokens anywhere in the arguments give usage. That the first positional is the one kept is stated by `ScanCharacterization`. |
| OptionProperties.LastOutIsLast | Program.cs:45-48 | Without any `out` option the output file stays absent. Otherwise it is the value of the last `out` option. |
| OptionProperties.LastCompatDefault | Program.cs:38 | Without a `compat` option that names a version, the level stays `None`. |
| OptionProperties.LastCompatIsLast | Program.cs:49-61 | If some `compat` option names a version, the level is the one named by the last such option. |
| OptionProperties.RepeatedOptionIsIdempotent | Program.cs:45-70 | Repeating any option token right after itself does not change the outcome. |
| Invocation.SelectEncoding | Program.cs:98-113 | The file encoding is UTF-8 with a byte-order mark for `None`, UTF-8 without one for 2.0 and 4.0, and the console's encoding for 4.5. |
| Invocation.ConsoleEncodingOnlyForV45 | Program.cs:99-113 | Two console encodings give the same file encoding exactly when the level is not 4.5 or the two are the same. |
| Invocation.Plan | Program.cs:95-121 | The engine gets the configuration unchanged. The sink is a file exactly when an output file was named; that file is opened in overwrite mode with the selected encoding. Otherwise the sink is the console. |
| Invocation.Run | Program.cs:34-123 | The program shows usage exactly when the parser rejects the arguments. Otherwise it runs the engine as `Plan` says, so nothing is disassembled or opened on a usage path. |
| Invocation.OutputPlanFromArguments | Program.cs:95-121 | For accepted arguments the engine reads the single positional. The output goes to the file of the last `out` option, in the encoding of the last `compat` level, or to the console when there is no `out` option. |
| Scenarios.InputFileOnly | Program.cs:36-94 | `foo.dll` alone parses to the defaults and writes to the console. |
| Scenarios.OutputFileAndVersion | Program.cs:95-117 | `-out:foo.il -compat:4.0 foo.dll` writes `foo.il`, overwritten, as UTF-8 without a byte-order mark. |
| Scenarios.TwoInputFiles | Program.cs:79-83 | `a.dll b.dll` is a usage error. |
| Scenarios.DiffModeWithTrailingText | Program.cs:67-70 | `-diffmode:x a.dll` sets diff mode. |
| Scenarios.EmptyOutputValue | Program.cs:127 | `-out: a.dll` is a usage error. |
| Scenarios.UnknownOption | Program.cs:71-75 | `-bogus a.dll` is a usage error. |

## Left out

- The `Disassembler` engine (its constructor and `Save`) is not part of this model. It appears only as the `Invocation` value: the settings it is constructed with and the sink it writes to.
- `PrintUsage` (Program.cs:136-147) only writes fixed text to the console. It is the single `Usage` outcome.
- Opening the output file with `StreamWriter`, its disposal by `using`, and the exceptions either may raise are I/O. The model stops at the `OutputFile` sink with path, overwrite mode and encoding.
- `Console.OutputEncoding` and `Console.Out` are global console state. The encoding is the `console` parameter, and the console stream is the `ConsoleOut` sink.
- `String.Compare(..., ignoreCase: true)` at Program.cs:127 is culture-sensitive, for example under a Turkish culture, where `I` does not fold to `i`. Program.cs:67 uses ordinal comparison. Both are modelled as ASCII case folding.
- The declaration of the `CompatLevel` enum is not part of this model. Its four values are taken from their uses in Program.cs.
