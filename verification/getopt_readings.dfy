/** How options and their arguments are written: what each way of writing them is read as. */
module GetoptReadings {
  import opened Prelude
  import opened Getopt

  /** A word "--name", or "--name=argument". */
  function LongWord(name: string): string {
    "--" + name
  }

  function LongWithArgument(name: string, argument: string): string {
    "--" + name + "=" + argument
  }

  function ShortWord(c: char): string {
    ['-', c]
  }

  // ----- names -----

  lemma {:induction false} NameIsWhole(name: string)
    requires '=' !in name
    ensures NameOf(name) == name
  {
    if name != "" {
      assert '=' !in name[1..];
      NameIsWhole(name[1..]);
      assert name == [name[0]] + name[1..];
    }
  }

  lemma {:induction false} NameEndsAtEquals(name: string, argument: string)
    requires '=' !in name
    ensures NameOf(name + "=" + argument) == name
  {
    var text := name + "=" + argument;
    if name == "" {
      assert text[0] == '=';
    } else {
      assert '=' !in name[1..];
      NameEndsAtEquals(name[1..], argument);
      assert text[1..] == name[1..] + "=" + argument;
      assert name == [name[0]] + name[1..];
    }
  }

  lemma LongWordParts(sx: Syntax, name: string, argument: string)
    requires sx.longs.Some? && name != "" && '=' !in name
    ensures IsOption(LongWord(name)) && sx.IsLong(LongWord(name)) && LongWord(name) != "--"
    ensures LongWord(name)[2..] == name && NameOf(name) == name
    ensures IsOption(LongWithArgument(name, argument)) && sx.IsLong(LongWithArgument(name, argument))
    ensures LongWithArgument(name, argument)[2..] == name + "=" + argument
    ensures LongWithArgument(name, argument) != "--" && NameOf(name + "=" + argument) == name
    ensures (name + "=" + argument)[|name| + 1..] == argument
  {
    NameIsWhole(name);
    NameEndsAtEquals(name, argument);
    assert LongWithArgument(name, argument)[2..] == name + "=" + argument;
    assert |LongWord(name)| > 2 && |LongWithArgument(name, argument)| > 2;
  }

  /** An exact name wins over abbreviations, and the first of several. Without one, the name must
      abbreviate exactly one option. */
  lemma ResolveExactly(sx: Syntax, name: string, i: nat)
    requires sx.longs.Some?
    ensures var longs := sx.longs.value; sx.Resolve(name) == Found(i) <==>
      && i < |longs| && name <= longs[i].name
      && (if longs[i].name == name then forall j :: 0 <= j < i ==> longs[j].name != name
          else forall j :: 0 <= j < |longs| && j != i ==> !(name <= longs[j].name))
    ensures sx.Resolve(name) == NotFound <==>
      forall j :: 0 <= j < |sx.longs.value| ==> !(name <= sx.longs.value[j].name)
  {
    var longs := sx.longs.value;
    sx.ExactInRange(name, 0);
    ExactIsFirst(sx, name, 0);
    CandidatesAre(sx, name, |longs|);
    var candidates := sx.Candidates(name, |longs|);
    if |candidates| == 1 {
      assert candidates[0] in candidates;
    } else if |candidates| > 1 {
      CandidatesDiffer(sx, name, |longs|);
      assert candidates[0] in candidates && candidates[1] in candidates;
    }
    if i < |longs| && name <= longs[i].name { assert i in candidates; }
  }

  lemma {:induction false} ExactIsFirst(sx: Syntax, name: string, i: nat)
    requires sx.longs.Some? && i <= |sx.longs.value|
    ensures sx.Exact(name, i).Some? ==>
      forall j :: i <= j < sx.Exact(name, i).value && j < |sx.longs.value| ==> sx.longs.value[j].name != name
    decreases |sx.longs.value| - i
  {
    if i < |sx.longs.value| { ExactIsFirst(sx, name, i + 1); }
  }

  lemma {:induction false} CandidatesAre(sx: Syntax, name: string, n: nat)
    requires sx.longs.Some? && n <= |sx.longs.value|
    ensures forall i :: i in sx.Candidates(name, n) <==> 0 <= i < n && name <= sx.longs.value[i].name
  {
    if n > 0 { CandidatesAre(sx, name, n - 1); }
  }

  lemma {:induction false} CandidatesDiffer(sx: Syntax, name: string, n: nat)
    requires sx.longs.Some? && n <= |sx.longs.value| && |sx.Candidates(name, n)| > 1
    ensures sx.Candidates(name, n)[0] != sx.Candidates(name, n)[1]
  {
    var before := sx.Candidates(name, n - 1);
    if |before| > 1 {
      CandidatesDiffer(sx, name, n - 1);
    } else {
      CandidatesAre(sx, name, n - 1);
      assert before[0] in before;
    }
  }

  // ----- one word at the front -----

  /** The first word with its argument, if it takes one, and then the rest. */
  lemma FirstOption(sx: Syntax, args: seq<string>, n: nat, rest: seq<string>, outcomes: seq<Outcome>)
    requires args != [] && IsOption(args[0]) && args[0] != "--"
    requires n == sx.OptionWords(args) && rest == args[n..]
    requires outcomes == sx.WordOutcomes(args[0], NextWord(args))
    ensures sx.Outcomes(args) == outcomes + sx.Outcomes(rest) && sx.Operands(args) == sx.Operands(rest)
    ensures sx.Options(args) == args[..n] + sx.Options(rest)
  {
  }

  /** The command line is read as an option and then as another command line. */
  ghost predicate ReadAs(sx: Syntax, args: seq<string>, outcome: Outcome, rest: seq<string>) {
    sx.Outcomes(args) == [outcome] + sx.Outcomes(rest) && sx.Operands(args) == sx.Operands(rest)
  }

  /** The option of this name takes an argument of this kind. */
  predicate Takes(sx: Syntax, name: string, i: nat, kind: ArgKind) {
    && sx.longs.Some? && name != "" && '=' !in name
    && sx.Resolve(name) == Found(i) && i < |sx.longs.value| && sx.longs.value[i].kind == kind
  }

  /** An argument attached to a long option is what follows the equals sign. An option that takes
      none does not want it. */
  lemma AttachedToLong(sx: Syntax, name: string, i: nat, kind: ArgKind, a: string, rest: seq<string>)
    requires Takes(sx, name, i, kind)
    ensures ReadAs(sx, [LongWithArgument(name, a)] + rest,
                   if kind == NoArgument then UnwantedArgument(i) else Long(i, Some(a)), rest)
  {
    LongWordParts(sx, name, a);
    var args := [LongWithArgument(name, a)] + rest;
    var outcome := if kind == NoArgument then UnwantedArgument(i) else Long(i, Some(a));
    assert args[1..] == rest;
    assert sx.OptionWords(args) == 1;
    FirstOption(sx, args, 1, rest, [outcome]);
  }

  /** A long option that requires an argument takes the next word, whatever it looks like. */
  lemma SeparateFromLong(sx: Syntax, name: string, i: nat, a: string, rest: seq<string>)
    requires Takes(sx, name, i, RequiredArgument)
    ensures ReadAs(sx, [LongWord(name), a] + rest, Long(i, Some(a)), rest)
  {
    LongWordParts(sx, name, "");
    var args := [LongWord(name), a] + rest;
    assert args[2..] == rest && args[1] == a;
    assert sx.OptionWords(args) == 2;
    FirstOption(sx, args, 2, rest, [Long(i, Some(a))]);
  }

  /** The argument of a long option that requires one can be attached or separate. */
  lemma LongArgumentEitherWay(sx: Syntax, name: string, i: nat, a: string, rest: seq<string>)
    requires Takes(sx, name, i, RequiredArgument)
    ensures sx.Outcomes([LongWithArgument(name, a)] + rest) == sx.Outcomes([LongWord(name), a] + rest)
    ensures sx.Operands([LongWithArgument(name, a)] + rest) == sx.Operands([LongWord(name), a] + rest)
    ensures sx.Outcomes([LongWord(name), a] + rest) == [Long(i, Some(a))] + sx.Outcomes(rest)
  {
    AttachedToLong(sx, name, i, RequiredArgument, a, rest);
    SeparateFromLong(sx, name, i, a, rest);
  }

  /** Without an argument an option that requires one lacks it, and takes nothing else. */
  lemma LongAlone(sx: Syntax, name: string, i: nat, kind: ArgKind, rest: seq<string>)
    requires Takes(sx, name, i, kind) && (kind == RequiredArgument ==> rest == [])
    ensures ReadAs(sx, [LongWord(name)] + rest,
                   if kind == RequiredArgument then MissingLong(i) else Long(i, None), rest)
  {
    LongWordParts(sx, name, "");
    var args := [LongWord(name)] + rest;
    var outcome := if kind == RequiredArgument then MissingLong(i) else Long(i, None);
    assert args[1..] == rest;
    assert sx.OptionWords(args) == 1;
    FirstOption(sx, args, 1, rest, [outcome]);
  }

  // ----- short options -----

  /** The option letter c takes an argument of this kind. */
  predicate LetterTakes(sx: Syntax, c: char, kind: ArgKind) {
    c != '-' && c in sx.shorts && sx.shorts[c] == kind
  }

  /** The letters behind a letter that takes no argument are read as if they had a dash of their
      own; so are those behind an unknown letter. */
  lemma LettersTogether(sx: Syntax, c: char, more: string, rest: seq<string>)
    requires c != '-' && more != "" && more[0] != '-' && (c in sx.shorts ==> sx.shorts[c] == NoArgument)
    ensures ReadAs(sx, [ShortWord(c) + more] + rest, if c in sx.shorts then Short(c, None) else UnknownShort(c),
                   ["-" + more] + rest)
  {
    var args, later := [ShortWord(c) + more] + rest, ["-" + more] + rest;
    var outcome := if c in sx.shorts then Short(c, None) else UnknownShort(c);
    assert args[0][1..] == [c] + more && ([c] + more)[1..] == more && later[0][1..] == more;
    assert args[1..] == later[1..];
    if sx.ShortTakesNext(more) && rest != [] {
      assert args[2..] == later[2..] && args[1] == later[1];
    }
    var n := sx.OptionWords(args);
    assert sx.OptionWords(later) == n && args[n..] == later[n..] && NextWord(args) == NextWord(later);
    var outcomes := sx.ShortOutcomes(more, NextWord(later));
    FirstOption(sx, args, n, args[n..], [outcome] + outcomes);
    FirstOption(sx, later, n, later[n..], outcomes);
    Regroup([outcome], outcomes, sx.Outcomes(later[n..]));
  }

  /** The letters behind a letter that takes an argument are the argument. */
  lemma AttachedToShort(sx: Syntax, c: char, kind: ArgKind, a: string, rest: seq<string>)
    requires LetterTakes(sx, c, kind) && kind != NoArgument && a != ""
    ensures ReadAs(sx, [ShortWord(c) + a] + rest, Short(c, Some(a)), rest)
  {
    var args := [ShortWord(c) + a] + rest;
    assert args[0][1..] == [c] + a && ([c] + a)[1..] == a && args[1..] == rest;
    assert sx.OptionWords(args) == 1;
    FirstOption(sx, args, 1, rest, [Short(c, Some(a))]);
  }

  lemma SeparateFromShort(sx: Syntax, c: char, a: string, rest: seq<string>)
    requires LetterTakes(sx, c, RequiredArgument)
    ensures ReadAs(sx, [ShortWord(c), a] + rest, Short(c, Some(a)), rest)
  {
    var args := [ShortWord(c), a] + rest;
    assert args[0][1..] == [c] && args[2..] == rest && args[1] == a;
    assert sx.OptionWords(args) == 2;
    FirstOption(sx, args, 2, rest, [Short(c, Some(a))]);
  }

  /** The argument of a letter that requires one can be attached or separate. */
  lemma ShortArgumentEitherWay(sx: Syntax, c: char, a: string, rest: seq<string>)
    requires LetterTakes(sx, c, RequiredArgument) && a != ""
    ensures sx.Outcomes([ShortWord(c) + a] + rest) == sx.Outcomes([ShortWord(c), a] + rest)
    ensures sx.Operands([ShortWord(c) + a] + rest) == sx.Operands([ShortWord(c), a] + rest)
    ensures sx.Outcomes([ShortWord(c), a] + rest) == [Short(c, Some(a))] + sx.Outcomes(rest)
  {
    AttachedToShort(sx, c, RequiredArgument, a, rest);
    SeparateFromShort(sx, c, a, rest);
  }

  /** A letter alone takes nothing, unless it requires an argument and there is a next word. */
  lemma ShortAlone(sx: Syntax, c: char, rest: seq<string>)
    requires c != '-' && (LetterTakes(sx, c, RequiredArgument) ==> rest == [])
    ensures ReadAs(sx, [ShortWord(c)] + rest,
                   if c !in sx.shorts then UnknownShort(c)
                   else if sx.shorts[c] == RequiredArgument then MissingShort(c) else Short(c, None), rest)
  {
    var args := [ShortWord(c)] + rest;
    assert args[0][1..] == [c] && [c][1..] == "" && args[1..] == rest;
    assert !sx.ShortTakesNext("") && sx.ShortOutcomes("", NextWord(args)) == [];
    assert sx.OptionWords(args) == 1;
    var outcome := if c !in sx.shorts then UnknownShort(c)
      else if sx.shorts[c] == RequiredArgument then MissingShort(c) else Short(c, None);
    FirstOption(sx, args, 1, rest, [outcome]);
  }

  /** A word without a dash, or a dash alone, is an operand. Behind "--" every word is one. */
  lemma OperandsAndTerminator(sx: Syntax, word: string, rest: seq<string>)
    requires word == "" || word == "-" || word[0] != '-'
    ensures sx.Outcomes([word] + rest) == sx.Outcomes(rest)
    ensures sx.Operands([word] + rest) == [word] + sx.Operands(rest)
    ensures sx.Outcomes(["--"] + rest) == [] && sx.Operands(["--"] + rest) == rest
  {
    assert ([word] + rest)[1..] == rest && (["--"] + rest)[1..] == rest;
    if word == "" || word == "-" { assert |word| <= 1; }
  }

  // ----- a run -----

  /** An operand, a letter and a name with their arguments, "--", and what follows it. */
  lemma MixedLine(sx: Syntax, word: string, c: char, x: string, name: string, i: nat, a: string, last: string)
    requires LetterTakes(sx, c, RequiredArgument) && Takes(sx, name, i, RequiredArgument)
    requires word == "" || word[0] != '-'
    ensures var args := [word, ShortWord(c), x, LongWithArgument(name, a), "--", last];
      && sx.Outcomes(args) == [Short(c, Some(x)), Long(i, Some(a))]
      && sx.Options(args) == [ShortWord(c), x, LongWithArgument(name, a), "--"]
      && sx.Operands(args) == [word, last]
  {
    var end := ["--", last];
    var third := [LongWithArgument(name, a)] + end;
    var second := [ShortWord(c), x] + third;
    OperandsAndTerminator(sx, word, second);
    OperandsAndTerminator(sx, word, [last]);
    assert ["--"] + [last] == end;
    SeparateFromShort(sx, c, x, third);
    AttachedToLong(sx, name, i, RequiredArgument, a, end);
    MixedOptions(sx, c, x, name, i, a, last);
    assert [word] + second == [word, ShortWord(c), x, LongWithArgument(name, a), "--", last];
    assert ([word] + second)[1..] == second;
  }

  lemma MixedOptions(sx: Syntax, c: char, x: string, name: string, i: nat, a: string, last: string)
    requires LetterTakes(sx, c, RequiredArgument) && Takes(sx, name, i, RequiredArgument)
    ensures sx.Options([ShortWord(c), x] + ([LongWithArgument(name, a)] + ["--", last]))
      == [ShortWord(c), x, LongWithArgument(name, a), "--"]
  {
    var end := ["--", last];
    var third := [LongWithArgument(name, a)] + end;
    LongWordParts(sx, name, a);
    OptionsOfTwo(sx, [ShortWord(c), x] + third, third);
    OptionsOfOne(sx, third, end);
    assert sx.Options(end) == ["--"];
  }

  lemma OptionsOfOne(sx: Syntax, args: seq<string>, rest: seq<string>)
    requires args != [] && IsOption(args[0]) && args[0] != "--" && args[1..] == rest
    requires sx.OptionWords(args) == 1
    ensures sx.Options(args) == [args[0]] + sx.Options(rest)
  {
  }

  lemma OptionsOfTwo(sx: Syntax, args: seq<string>, rest: seq<string>)
    requires |args| > 1 && IsOption(args[0]) && args[0] != "--" && args[2..] == rest
    requires sx.OptionWords(args) == 2
    ensures sx.Options(args) == [args[0], args[1]] + sx.Options(rest)
  {
  }

  /** The words of a command line in an array, behind the name of the program. */
  method Vector(program: string, args: seq<string>) returns (argv: array<string>)
    ensures fresh(argv) && argv.Length == 1 + |args| && argv[0] == program && argv[1..] == args
  {
    argv := new string[1 + |args|](k requires 0 <= k < 1 + |args| => if k == 0 then program else args[k - 1]);
  }

  /** A run over the words of a command line: what is reported, and what becomes of the words. */
  method Parse(sx: Syntax, program: string, args: seq<string>)
    returns (outcomes: seq<Outcome>, words: seq<string>, optind: nat)
    ensures outcomes == sx.Outcomes(args)
    ensures words == sx.Options(args) + sx.Operands(args) && optind == 1 + |sx.Options(args)|
  {
    var argv := Vector(program, args);
    var getopt := new Getopt(sx, argv);
    outcomes := getopt.Run(args);
    words, optind := argv[1..], getopt.optind;
  }

  /** "make word -c x --name=a -- last": the two options are reported with their arguments, and
      the operands come last. */
  method ParseMixed(sx: Syntax, word: string, c: char, x: string, name: string, i: nat, a: string, last: string)
    returns (outcomes: seq<Outcome>, words: seq<string>, optind: nat)
    requires LetterTakes(sx, c, RequiredArgument) && Takes(sx, name, i, RequiredArgument)
    requires word == "" || word[0] != '-'
    ensures outcomes == [Short(c, Some(x)), Long(i, Some(a))] && optind == 5
    ensures words == [ShortWord(c), x, LongWithArgument(name, a), "--", word, last]
  {
    MixedLine(sx, word, c, x, name, i, a, last);
    outcomes, words, optind := Parse(sx, "make", [word, ShortWord(c), x, LongWithArgument(name, a), "--", last]);
  }
}
