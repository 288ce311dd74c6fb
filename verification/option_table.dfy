/** The option table of src/argsParser.js (`mainOptions`) and the names
    its keys take once converted: the names `main` reads from its options
    object. */
module OptionTable {
  import opened Basics
  import opened Names
  import opened ArgsParser

  /** The keys, spelt out word by word; `help` and `overwrite` have no `-`
      and are left as they are (`CamelPlain`). */
  const SegmentNameOption: string := "macho" + "-segment" + "-name"
  const ApiHeaderOption: string := "output" + "-api" + "-header"

  /** `macho-segment-name` becomes `machoSegmentName`. */
  lemma SegmentNameKey()
    ensures Camel(SegmentNameOption) == "machoSegmentName"
  {
    WordThenJoin("egment", 'n', "ame");
    WordThenJoin("macho", 's', "egment" + (['-', 'n'] + "ame"));
    CamelPlain("ame");
    assert UpperChar('s') == 'S' && UpperChar('n') == 'N';
    assert "macho" + (['S'] + ("egment" + (['N'] + "ame"))) == "machoSegmentName";
    assert SegmentNameOption == "macho" + (['-', 's'] + ("egment" + (['-', 'n'] + "ame")));
  }

  /** `output-api-header` becomes `outputApiHeader`. */
  lemma ApiHeaderKey()
    ensures Camel(ApiHeaderOption) == "outputApiHeader"
  {
    WordThenJoin("pi", 'h', "eader");
    WordThenJoin("output", 'a', "pi" + (['-', 'h'] + "eader"));
    CamelPlain("eader");
    assert UpperChar('a') == 'A' && UpperChar('h') == 'H';
    assert "output" + (['A'] + ("pi" + (['H'] + "eader"))) == "outputApiHeader";
    assert ApiHeaderOption == "output" + (['-', 'a'] + ("pi" + (['-', 'h'] + "eader")));
  }

  /** With the option table's own keys, the callback finds each parsed
      value under the camelCase name `main` reads. */
  lemma TableOptionsReachMain(argv: seq<string>, segment: string, parseOptions: seq<string> -> seq<(string, OptionValue)>,
                              helpTopic: seq<string> -> Option<string>)
    requires |argv| >= 5 && "--help" !in argv[2..] && "-h" !in argv[2..]
    requires parseOptions(argv[2..|argv| - 3]) == [(SegmentNameOption, Text(segment)), (ApiHeaderOption, Flag(true))]
    ensures var r := ArgumentsParser(argv, parseOptions, helpTopic);
            && r.Invoke?
            && r.options == map["machoSegmentName" := Text(segment), "outputApiHeader" := Flag(true)]
  {
    var args := UserArgs(argv);
    assert args == argv[2..];
    assert args[..|args| - 3] == argv[2..|argv| - 3];
    TableKeys(segment);
  }

  /** The `reduce` over the two table entries. */
  lemma TableKeys(segment: string)
    ensures CamelCaseKeys([(SegmentNameOption, Text(segment)), (ApiHeaderOption, Flag(true))])
            == map["machoSegmentName" := Text(segment), "outputApiHeader" := Flag(true)]
  {
    SegmentNameKey();
    ApiHeaderKey();
    TwoEntries(SegmentNameOption, Text(segment), ApiHeaderOption, Flag(true));
  }

  /** Two entries whose keys convert to different names are both kept. */
  lemma TwoEntries(k1: string, v1: OptionValue, k2: string, v2: OptionValue)
    requires Camel(k1) != Camel(k2)
    ensures CamelCaseKeys([(k1, v1), (k2, v2)]) == map[Camel(k1) := v1, Camel(k2) := v2]
  {
    assert [(k1, v1), (k2, v2)][..1] == [(k1, v1)];
    assert [(k1, v1)][..0] == [];
  }
}
