/** `argumentsParser` (src/argsParser.js): the hand-written command-line
    parser.  It short-circuits on `--help`/`-h`, insists on three
    positional arguments, takes them from the end of the argument list,
    and hands the rest to `util.parseArgs`, whose result keys it converts
    from kebab-case to camelCase.  `util.parseArgs` and the help printer
    are oracles; console output is not modelled. */
module ArgsParser {
  import opened Basics
  import opened Names

  /** The value `util.parseArgs` gives an option: a string or a flag. */
  datatype OptionValue = Text(text: string) | Flag(on: bool)

  /** How `argumentsParser` ends: help printed (exit status 0), too few
      arguments (exit status 1), or the callback invoked with the three
      positionals and the options object. */
  datatype ParseOutcome =
    | Help(topic: Option<string>)
    | MissingArguments
    | Invoke(filename: string, resourceName: string, resource: string, options: map<string, OptionValue>)

  function ExitStatus(o: ParseOutcome): (c: Option<nat>)
    ensures c.None? <==> o.Invoke?
    ensures c == Some(0) <==> o.Help?
    ensures o.MissingArguments? ==> c == Some(1)
  {
    match o
    case Help(_) => Some(0)
    case MissingArguments => Some(1)
    case Invoke(_, _, _, _) => None
  }

  /** `process.argv.slice(2)`: the arguments after the interpreter and the
      script. */
  function UserArgs(argv: seq<string>): (args: seq<string>)
    ensures |argv| >= 2 ==> argv == argv[..2] + args
    ensures |argv| < 2 ==> args == []
  {
    if |argv| >= 2 then argv[2..] else []
  }

  /** The split of the arguments: everything before the last three, and
      the last three. */
  function Split(args: seq<string>): (r: (seq<string>, seq<string>))
    requires |args| >= 3
    ensures |r.1| == 3
    ensures r.0 + r.1 == args
  {
    (args[..|args| - 3], args[|args| - 3..])
  }

  /** No `-` is followed by a lower-case letter. */
  predicate NoDashLower(s: string) {
    forall i :: 0 <= i < |s| - 1 ==> !(s[i] == '-' && IsLower(s[i + 1]))
  }

  /** `key.replace(/-([a-z])/g, g => g[1].toUpperCase())`: scanning left to
      right, each `-` followed by a lower-case letter becomes that letter
      upper-cased, and the scan resumes after it. */
  function Camel(s: string): (r: string)
    ensures |r| <= |s|
  {
    if |s| < 2 then s
    else if s[0] == '-' && IsLower(s[1]) then [UpperChar(s[1])] + Camel(s[2..])
    else [s[0]] + Camel(s[1..])
  }

  /** The first character of a converted key, which is never a lower-case
      letter when the key started with `-` and some other character. */
  lemma {:induction false} CamelHead(s: string)
    requires |s| > 0
    ensures |Camel(s)| > 0
    ensures Camel(s)[0] == s[0] || (s[0] == '-' && |s| >= 2 && IsLower(s[1]) && Camel(s)[0] == UpperChar(s[1]))
  {
  }

  /** Converted keys have no `-` left in front of a lower-case letter. */
  lemma {:induction false} CamelLeavesNoDashLower(s: string)
    ensures NoDashLower(Camel(s))
    decreases |s|
  {
    if |s| < 2 {
    } else if s[0] == '-' && IsLower(s[1]) {
      CamelLeavesNoDashLower(s[2..]);
      var r := Camel(s);
      assert r == [UpperChar(s[1])] + Camel(s[2..]);
      forall i | 0 <= i < |r| - 1
        ensures !(r[i] == '-' && IsLower(r[i + 1]))
      {
        if i > 0 {
          assert r[i] == Camel(s[2..])[i - 1] && r[i + 1] == Camel(s[2..])[i];
        }
      }
    } else {
      CamelLeavesNoDashLower(s[1..]);
      var r := Camel(s);
      var t := Camel(s[1..]);
      assert r == [s[0]] + t;
      CamelHead(s[1..]);
      forall i | 0 <= i < |r| - 1
        ensures !(r[i] == '-' && IsLower(r[i + 1]))
      {
        if i > 0 {
          assert r[i] == t[i - 1] && r[i + 1] == t[i];
        } else if s[0] == '-' {
          assert !IsLower(s[1]);
          assert r[1] == t[0];
        }
      }
    }
  }

  /** A key is left unchanged exactly when it has no `-` in front of a
      lower-case letter. */
  lemma {:induction false} CamelFixedPoints(s: string)
    ensures Camel(s) == s <==> NoDashLower(s)
    decreases |s|
  {
    if |s| < 2 {
    } else if s[0] == '-' && IsLower(s[1]) {
      assert |Camel(s)| < |s|;
    } else {
      CamelFixedPoints(s[1..]);
      assert Camel(s) == [s[0]] + Camel(s[1..]);
      if NoDashLower(s) {
        assert NoDashLower(s[1..]) by {
          forall i | 0 <= i < |s[1..]| - 1
            ensures !(s[1..][i] == '-' && IsLower(s[1..][i + 1]))
          {
            assert s[1..][i] == s[i + 1] && s[1..][i + 1] == s[i + 2];
          }
        }
      }
    }
  }

  /** Converting a key twice is the same as converting it once. */
  lemma CamelIdempotent(s: string)
    ensures Camel(Camel(s)) == Camel(s)
  {
    CamelLeavesNoDashLower(s);
    CamelFixedPoints(Camel(s));
  }

  /** A key can be converted piecewise at any point not preceded by `-`. */
  lemma {:induction false} CamelSplit(a: string, b: string)
    requires |a| == 0 || a[|a| - 1] != '-'
    ensures Camel(a + b) == Camel(a) + Camel(b)
    decreases |a|
  {
    if |a| == 0 {
      assert a + b == b;
    } else if |a| == 1 {
      if |b| > 0 {
        assert (a + b)[1..] == b;
      }
    } else if a[0] == '-' && IsLower(a[1]) {
      assert (a + b)[2..] == a[2..] + b;
      CamelSplit(a[2..], b);
    } else {
      assert (a + b)[1..] == a[1..] + b;
      CamelSplit(a[1..], b);
    }
  }

  predicate NoDash(p: string) {
    forall i :: 0 <= i < |p| ==> p[i] != '-'
  }

  /** A key without `-` is left as it is. */
  lemma CamelPlain(p: string)
    requires NoDash(p)
    ensures Camel(p) == p
  {
    CamelFixedPoints(p);
  }

  /** A word without `-`, then `-` and a lower-case letter: the word is
      copied and the letter upper-cased in place of the pair. */
  lemma WordThenJoin(w: string, c: char, rest: string)
    requires NoDash(w) && IsLower(c)
    ensures Camel(w + (['-', c] + rest)) == w + ([UpperChar(c)] + Camel(rest))
  {
    CamelSplit(w, ['-', c] + rest);
    CamelPlain(w);
    assert (['-', c] + rest)[2..] == rest;
  }

  /** The `reduce` over the parsed entries: each value is stored under its
      converted key, and when two keys convert to the same name the later
      entry wins. */
  function CamelCaseKeys(entries: seq<(string, OptionValue)>): (m: map<string, OptionValue>)
    ensures m.Keys == KeyNames(entries)
    ensures forall i :: 0 <= i < |entries| && LastWithName(entries, i) ==> m[Camel(entries[i].0)] == entries[i].1
  {
    if |entries| == 0 then map[]
    else
      var init := entries[..|entries| - 1];
      var last := entries[|entries| - 1];
      var m := CamelCaseKeys(init)[Camel(last.0) := last.1];
      StoreLast(entries, CamelCaseKeys(init));
      m
  }

  /** The converted keys of a list of entries. */
  function KeyNames(entries: seq<(string, OptionValue)>): set<string> {
    set i | 0 <= i < |entries| :: Camel(entries[i].0)
  }

  lemma KeysGrow(entries: seq<(string, OptionValue)>)
    requires |entries| > 0
    ensures KeyNames(entries) == KeyNames(entries[..|entries| - 1]) + {Camel(entries[|entries| - 1].0)}
  {
    var init := entries[..|entries| - 1];
    assert forall i :: 0 <= i < |init| ==> init[i] == entries[i];
    forall k | k in KeyNames(entries)
      ensures k in KeyNames(init) + {Camel(entries[|entries| - 1].0)}
    {
      var i :| 0 <= i < |entries| && Camel(entries[i].0) == k;
      if i < |init| {
        assert Camel(init[i].0) == k;
      }
    }
    forall k | k in KeyNames(init)
      ensures k in KeyNames(entries)
    {
      var i :| 0 <= i < |init| && Camel(init[i].0) == k;
      assert Camel(entries[i].0) == k;
    }
  }

  /** One step of the `reduce`: storing the last entry over the table built
      from the others keeps the table's promises. */
  lemma StoreLast(entries: seq<(string, OptionValue)>, prev: map<string, OptionValue>)
    requires |entries| > 0
    requires prev.Keys == KeyNames(entries[..|entries| - 1])
    requires forall i :: 0 <= i < |entries| - 1 && LastWithName(entries[..|entries| - 1], i)
                         ==> prev[Camel(entries[i].0)] == entries[i].1
    ensures var m := prev[Camel(entries[|entries| - 1].0) := entries[|entries| - 1].1];
            && m.Keys == KeyNames(entries)
            && forall i :: 0 <= i < |entries| && LastWithName(entries, i) ==> m[Camel(entries[i].0)] == entries[i].1
  {
    var init := entries[..|entries| - 1];
    var last := entries[|entries| - 1];
    var m := prev[Camel(last.0) := last.1];
    KeysGrow(entries);
    forall i | 0 <= i < |entries| && LastWithName(entries, i)
      ensures m[Camel(entries[i].0)] == entries[i].1
    {
      if i < |init| {
        assert Camel(last.0) != Camel(entries[i].0);
        assert LastWithName(init, i) by {
          forall j | i < j < |init|
            ensures Camel(init[j].0) != Camel(init[i].0)
          {
            assert init[j] == entries[j] && init[i] == entries[i];
          }
        }
      }
    }
  }

  /** No later entry converts to the same name as entry `i`. */
  predicate LastWithName(entries: seq<(string, OptionValue)>, i: nat)
    requires i < |entries|
  {
    forall j :: i < j < |entries| ==> Camel(entries[j].0) != Camel(entries[i].0)
  }

  /** `argumentsParser`: `parseOptions` stands for the entries of the
      `values` object `util.parseArgs` returns, and `helpTopic` for its
      `help` value when that is a string. */
  function ArgumentsParser(argv: seq<string>, parseOptions: seq<string> -> seq<(string, OptionValue)>,
                           helpTopic: seq<string> -> Option<string>)
    : (r: ParseOutcome)
    ensures var args := UserArgs(argv);
            && (r.Help? <==> "--help" in args || "-h" in args)
            && (r.Help? ==> r.topic == helpTopic(args))
            && (r.MissingArguments? <==> "--help" !in args && "-h" !in args && |args| < 3)
            && (r.Invoke? ==> |args| >= 3 && args[..|args| - 3] + [r.filename, r.resourceName, r.resource] == args)
            && (r.Invoke? ==> r.options == CamelCaseKeys(parseOptions(args[..|args| - 3])))
  {
    var args := UserArgs(argv);
    if "--help" in args || "-h" in args then Help(helpTopic(args))
    else if |args| < 3 then MissingArguments
    else
      var (optionArgs, positional) := Split(args);
      assert positional == [positional[0], positional[1], positional[2]];
      Invoke(positional[0], positional[1], positional[2], CamelCaseKeys(parseOptions(optionArgs)))
  }
}
