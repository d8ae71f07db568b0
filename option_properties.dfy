/**
 * What the option parser accepts and produces, stated without the loop.
 *
 * An argument list is accepted exactly when every option-shaped token is a
 * known option and there is exactly one positional token; the configuration
 * then takes its input file from that token, its output file and
 * compatibility level from the last `out` and `compat` options, and sets
 * diff mode when some token asks for it.
 */
module OptionProperties {
  import opened Wrappers
  import opened Text
  import opened Options

  predicate IsOutOption(arg: string)
  {
    IsOption(arg) && TryMatchOption(arg, "out").Some?
  }

  predicate IsCompatOption(arg: string)
  {
    IsOption(arg) && TryMatchOption(arg, "compat").Some?
  }

  predicate IsDiffModeOption(arg: string)
  {
    IsOption(arg) && MatchesDiffMode(arg)
  }

  /** A `compat` option whose value names a version. */
  predicate IsVersionOption(arg: string)
  {
    IsCompatOption(arg) && ParseCompat(TryMatchOption(arg, "compat").value).Some?
  }

  /** An option token that the parser accepts: `out`, `compat` with a known version, or `diffmode`. */
  predicate KnownOption(arg: string)
  {
    IsOutOption(arg)
    || IsVersionOption(arg)
    || IsDiffModeOption(arg)
  }

  /** Every option-shaped token is a known option. */
  predicate WellFormed(args: seq<string>)
  {
    forall i :: 0 <= i < |args| && IsOption(args[i]) ==> KnownOption(args[i])
  }

  /** The positional tokens, in order. */
  function Positionals(args: seq<string>): seq<string>
  {
    if args == [] then []
    else Positionals(args[..|args| - 1]) + (if IsOption(args[|args| - 1]) then [] else [args[|args| - 1]])
  }

  /** The value of the last `out` option, if there is one. */
  function LastOut(args: seq<string>): Option<string>
  {
    if args == [] then Option.None
    else if IsOutOption(args[|args| - 1]) then TryMatchOption(args[|args| - 1], "out")
    else LastOut(args[..|args| - 1])
  }

  /** The version a `compat` option names. */
  function VersionOf(arg: string): CompatLevel
    requires IsVersionOption(arg)
  {
    ParseCompat(TryMatchOption(arg, "compat").value).value
  }

  /** The version of the last `compat` option that names one, or the default level. */
  function LastCompat(args: seq<string>): CompatLevel
  {
    if args == [] then CompatLevel.None
    else if IsVersionOption(args[|args| - 1]) then VersionOf(args[|args| - 1])
    else LastCompat(args[..|args| - 1])
  }

  /** Some token asks for diff mode. */
  predicate DiffRequested(args: seq<string>)
  {
    exists i :: 0 <= i < |args| && IsDiffModeOption(args[i])
  }

  /** No token is taken for two options: the three names already differ in their first letter. */
  lemma OptionKindsDisjoint(arg: string)
    requires |arg| > 0
    ensures TryMatchOption(arg, "out").Some? ==> TryMatchOption(arg, "compat").None? && !MatchesDiffMode(arg)
    ensures TryMatchOption(arg, "compat").Some? ==> !MatchesDiffMode(arg)
  {
    if |arg| > 1 {
      var first := FoldAscii(arg[1]);
      if TryMatchOption(arg, "out").Some? {
        assert arg[1..4][0] == arg[1];
        assert first == 'o';
      }
      if TryMatchOption(arg, "compat").Some? {
        assert arg[1..7][0] == arg[1];
        assert first == 'c';
      }
      if MatchesDiffMode(arg) {
        assert arg[1..9][0] == arg[1];
        assert first == 'd';
      }
    }
  }

  /**
   * Any spelling of an option name, in any letter case, after either prefix
   * and followed by either separator and a non-empty value, yields that value.
   */
  lemma OptionSpelling(prefix: char, name: string, sep: char, value: string, key: string)
    requires prefix == '-' || prefix == '/'
    requires EqualsIgnoreCase(name, key)
    requires sep == ':' || sep == '='
    requires |value| > 0
    ensures IsOption([prefix] + name + [sep] + value)
    ensures TryMatchOption([prefix] + name + [sep] + value, key) == Some(value)
  {
    var arg := [prefix] + name + [sep] + value;
    assert arg[1..|key| + 1] == name;
    assert arg[|key| + 1] == sep;
    assert arg[|key| + 2..] == value;
  }

  /** The `compat` values are exactly the literals of the three versions; no other text selects one. */
  lemma CompatRoundTrip(value: string, level: CompatLevel)
    ensures ParseCompat(value) == Some(level) <==> level != CompatLevel.None && value == CompatName(level)
  {
  }

  /** The flag is recognised by its first eight characters after the prefix. */
  lemma DiffModeRule(arg: string)
    requires |arg| > 0
    ensures MatchesDiffMode(arg) <==> |arg| >= 9 && EqualsIgnoreCase(arg[1..9], "diffmode")
  {
  }

  /** Text after `diffmode` is never examined. */
  lemma DiffModeIgnoresTail(arg: string, tail: string)
    requires |arg| > 0 && MatchesDiffMode(arg)
    ensures MatchesDiffMode(arg + tail)
  {
    DiffModeRule(arg);
    DiffModeRule(arg + tail);
    assert (arg + tail)[1..9] == arg[1..9];
  }

  lemma {:induction false} PositionalsOf(args: seq<string>, i: nat)
    requires i < |args| && !IsOption(args[i])
    ensures |Positionals(args)| > 0
  {
    if i < |args| - 1 {
      assert args[..|args| - 1][i] == args[i];
      PositionalsOf(args[..|args| - 1], i);
    }
  }

  lemma {:induction false} PositionalsOfTwo(args: seq<string>, i: nat, j: nat)
    requires i < j < |args| && !IsOption(args[i]) && !IsOption(args[j])
    ensures |Positionals(args)| > 1
  {
    var init := args[..|args| - 1];
    assert init[i] == args[i];
    if j < |args| - 1 {
      assert init[j] == args[j];
      PositionalsOfTwo(init, i, j);
    } else {
      PositionalsOf(init, i);
    }
  }

  /** The state the loop reaches on `args`, described without the loop. */
  lemma {:induction false} ScanCharacterization(args: seq<string>)
    ensures Scan(args) ==
      if WellFormed(args) && |Positionals(args)| <= 1 then
        Some(ScanState(
          if Positionals(args) == [] then Option.None else Some(Positionals(args)[0]),
          LastOut(args), LastCompat(args), DiffRequested(args)))
      else
        Option.None
  {
    if args != [] {
      var init, a := args[..|args| - 1], args[|args| - 1];
      ScanCharacterization(init);
      assert args == init + [a];
      assert WellFormed(args) <==> WellFormed(init) && (IsOption(a) ==> KnownOption(a)) by {
        if WellFormed(args) {
          forall i | 0 <= i < |init| && IsOption(init[i]) ensures KnownOption(init[i]) {
            assert init[i] == args[i];
          }
        }
      }
      assert DiffRequested(args) <==> DiffRequested(init) || IsDiffModeOption(a) by {
        if DiffRequested(init) {
          var i :| 0 <= i < |init| && IsDiffModeOption(init[i]);
          assert args[i] == init[i];
        }
        if DiffRequested(args) && !IsDiffModeOption(a) {
          var i :| 0 <= i < |args| && IsDiffModeOption(args[i]);
          assert init[i] == args[i];
        }
      }
      if IsOption(a) {
        OptionKindsDisjoint(a);
      }
    }
  }

  /**
   * The parser's verdict and result, described without the loop: accepted
   * exactly when every option is known and there is exactly one positional.
   */
  lemma ParseCharacterization(args: seq<string>)
    ensures Parse(args) ==
      if WellFormed(args) && |Positionals(args)| == 1 then
        Parsed(Config(Positionals(args)[0], LastOut(args), LastCompat(args), DiffRequested(args)))
      else
        Usage
  {
    ScanCharacterization(args);
  }

  /** An option-shaped token that is not a known option makes the whole argument list a usage error. */
  lemma UnknownOptionAborts(args: seq<string>, i: nat)
    requires i < |args| && IsOption(args[i]) && !KnownOption(args[i])
    ensures Parse(args) == Usage
  {
    ParseCharacterization(args);
  }

  /** Without any positional token there is nothing to disassemble. */
  lemma MissingInputAborts(args: seq<string>)
    requires forall i :: 0 <= i < |args| ==> IsOption(args[i])
    ensures Parse(args) == Usage
  {
    ParseCharacterization(args);
    PositionalsOfOptions(args);
  }

  lemma {:induction false} PositionalsOfOptions(args: seq<string>)
    requires forall i :: 0 <= i < |args| ==> IsOption(args[i])
    ensures Positionals(args) == []
  {
    if args != [] {
      var init := args[..|args| - 1];
      forall i | 0 <= i < |init| ensures IsOption(init[i]) {
        assert init[i] == args[i];
      }
      PositionalsOfOptions(init);
    }
  }

  /** A second positional token is an error; it does not replace the first. */
  lemma SecondPositionalAborts(args: seq<string>, i: nat, j: nat)
    requires i < j < |args| && !IsOption(args[i]) && !IsOption(args[j])
    ensures Parse(args) == Usage
  {
    ParseCharacterization(args);
    PositionalsOfTwo(args, i, j);
  }

  /** The last `out` option wins; without one the output file stays absent. */
  lemma {:induction false} LastOutIsLast(args: seq<string>)
    ensures LastOut(args).None? <==> forall i :: 0 <= i < |args| ==> !IsOutOption(args[i])
    ensures LastOut(args).Some? ==>
      exists i :: 0 <= i < |args| && IsOutOption(args[i]) && LastOut(args) == TryMatchOption(args[i], "out")
        && forall j :: i < j < |args| ==> !IsOutOption(args[j])
  {
    if args != [] {
      var init, n := args[..|args| - 1], |args| - 1;
      LastOutIsLast(init);
      if IsOutOption(args[n]) {
        assert LastOut(args) == TryMatchOption(args[n], "out");
      } else {
        forall i | 0 <= i < |init| ensures init[i] == args[i] { }
        if LastOut(init).Some? {
          var i :| 0 <= i < |init| && IsOutOption(init[i]) && LastOut(init) == TryMatchOption(init[i], "out")
            && forall j :: i < j < |init| ==> !IsOutOption(init[j]);
          assert IsOutOption(args[i]);
        }
      }
    }
  }

  /** Without a `compat` option that names a version, the level stays at its default. */
  lemma {:induction false} LastCompatDefault(args: seq<string>)
    requires forall i :: 0 <= i < |args| ==> !IsVersionOption(args[i])
    ensures LastCompat(args) == CompatLevel.None
  {
    if args != [] {
      var init := args[..|args| - 1];
      forall i | 0 <= i < |init| ensures !IsVersionOption(init[i]) {
        assert init[i] == args[i];
      }
      LastCompatDefault(init);
    }
  }

  /** The last `compat` option that names a version wins. */
  lemma {:induction false} LastCompatIsLast(args: seq<string>, k: nat)
    requires k < |args| && IsVersionOption(args[k])
    ensures exists i ::
      0 <= i < |args| && IsVersionOption(args[i]) && LastCompat(args) == VersionOf(args[i])
      && forall j :: i < j < |args| ==> !IsVersionOption(args[j])
  {
    var init, n := args[..|args| - 1], |args| - 1;
    if IsVersionOption(args[n]) {
      assert LastCompat(args) == VersionOf(args[n]);
    } else {
      assert init[k] == args[k];
      LastCompatIsLast(init, k);
      var i :| 0 <= i < |init| && IsVersionOption(init[i]) && LastCompat(init) == VersionOf(init[i])
        && forall j :: i < j < |init| ==> !IsVersionOption(init[j]);
      assert args[i] == init[i];
      forall j | i < j < |args| ensures !IsVersionOption(args[j]) {
        if j < n {
          assert args[j] == init[j];
        }
      }
    }
  }

  /** Repeating an option token changes nothing: `out` and `compat` overwrite, `diffmode` sets the flag again. */
  lemma RepeatedOptionIsIdempotent(args: seq<string>, arg: string)
    requires IsOption(arg)
    ensures Parse(args + [arg, arg]) == Parse(args + [arg])
  {
    assert (args + [arg, arg])[..|args| + 1] == args + [arg];
    assert (args + [arg])[..|args|] == args;
  }
}
