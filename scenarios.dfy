/** Concrete command lines, worked through the model. */
module Scenarios {
  import opened Wrappers
  import opened Text
  import opened Options
  import opened OptionProperties
  import opened Invocation

  /** `foo.dll` alone: disassemble to the console with the defaults. */
  lemma InputFileOnly(console: TextEncoding)
    ensures Parse(["foo.dll"]) == Parsed(Config("foo.dll", Option.None, CompatLevel.None, false))
    ensures Plan(Parse(["foo.dll"]).config, console).sink == ConsoleOut
  {
    assert ["foo.dll"][..0] == [];
  }

  /** `-out:foo.il -compat:4.0 foo.dll`: write `foo.il` as UTF-8 without a byte-order mark. */
  lemma OutputFileAndVersion(console: TextEncoding)
    ensures Parse(["-out:foo.il", "-compat:4.0", "foo.dll"]) == Parsed(Config("foo.dll", Some("foo.il"), V40, false))
    ensures Plan(Parse(["-out:foo.il", "-compat:4.0", "foo.dll"]).config, console).sink
      == OutputFile("foo.il", false, Utf8(false))
  {
    var args := ["-out:foo.il", "-compat:4.0", "foo.dll"];
    assert args[..2][..1] == ["-out:foo.il"];
    assert args[..2] == ["-out:foo.il", "-compat:4.0"];
    assert ["-out:foo.il"][..0] == [];
    OptionSpelling('-', "out", ':', "foo.il", "out");
    OptionSpelling('-', "compat", ':', "4.0", "compat");
    OptionKindsDisjoint("-compat:4.0");
    assert "-out:foo.il" == ['-'] + "out" + [':'] + "foo.il";
    assert "-compat:4.0" == ['-'] + "compat" + [':'] + "4.0";
    var afterOut := Initial.(outputFile := Some("foo.il"));
    assert Scan(["-out:foo.il"]) == Some(afterOut);
    assert Scan(args[..2]) == Some(afterOut.(compatLevel := V40));
    assert Scan(args) == Some(afterOut.(compatLevel := V40, inputFile := Some("foo.dll")));
  }

  /** `a.dll b.dll`: two input files are a usage error. */
  lemma TwoInputFiles()
    ensures Parse(["a.dll", "b.dll"]) == Usage
  {
    SecondPositionalAborts(["a.dll", "b.dll"], 0, 1);
  }

  /** `-diffmode:x a.dll`: the text after `diffmode` is not examined, so the flag is set. */
  lemma DiffModeWithTrailingText()
    ensures Parse(["-diffmode:x", "a.dll"]) == Parsed(Config("a.dll", Option.None, CompatLevel.None, true))
  {
    var args := ["-diffmode:x", "a.dll"];
    assert args[..1] == ["-diffmode:x"];
    assert ["-diffmode:x"][..0] == [];
    assert MatchesDiffMode("-diffmode:x") by {
      DiffModeRule("-diffmode:x");
      assert "-diffmode:x"[1..9] == "diffmode";
    }
    OptionKindsDisjoint("-diffmode:x");
  }

  /** `-out: a.dll`: an empty value does not make an `out` option, so the token is unknown. */
  lemma EmptyOutputValue()
    ensures Parse(["-out:", "a.dll"]) == Usage
  {
    DiffModeRule("-out:");
    UnknownOptionAborts(["-out:", "a.dll"], 0);
  }

  /** `-bogus a.dll`: an unknown option is a usage error. */
  lemma UnknownOption()
    ensures Parse(["-bogus", "a.dll"]) == Usage
  {
    DiffModeRule("-bogus");
    UnknownOptionAborts(["-bogus", "a.dll"], 0);
  }
}
