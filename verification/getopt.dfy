/** getopt in PERMUTE order: options are found anywhere in argv, and argv is rearranged
    in place so that the other arguments come last. */
module Getopt {
  import opened Prelude

  datatype ArgKind = NoArgument | RequiredArgument | OptionalArgument
  datatype LongOption = LongOption(name: string, kind: ArgKind)

  /** What one call of getopt reports: the option and its argument, or what is wrong. */
  datatype Outcome =
    | End
    | Short(option: char, argument: Option<string>)
    | UnknownShort(option: char)
    | MissingShort(option: char)
    | Long(index: nat, argument: Option<string>)
    | UnknownLong(text: string)
    | AmbiguousLong(text: string)
    | UnwantedArgument(index: nat)
    | MissingLong(index: nat)

  datatype Lookup = NotFound | Ambiguous | Found(index: nat)

  /** A word with option syntax: a dash followed by something. */
  predicate IsOption(word: string) {
    |word| > 1 && word[0] == '-'
  }

  function NameOf(text: string): string {
    if text == "" || text[0] == '=' then "" else [text[0]] + NameOf(text[1..])
  }

  /** The word after the first, which an option can take as its argument. */
  function NextWord(args: seq<string>): Option<string> {
    if |args| > 1 then Some(args[1]) else None
  }

  /** The options a program accepts. */
  datatype Syntax = Syntax(shorts: map<char, ArgKind>, longs: Option<seq<LongOption>>) {

    predicate IsLong(word: string) {
      longs.Some? && |word| > 1 && word[1] == '-'
    }

    /** The rest of a word of short options takes the next word as argument: its last option
        requires one, and no option before that uses up the word. */
    predicate ShortTakesNext(text: string) {
      text != "" &&
      if text[0] in shorts && shorts[text[0]] == RequiredArgument then |text| == 1
      else if text[0] in shorts && shorts[text[0]] == OptionalArgument then false
      else ShortTakesNext(text[1..])
    }

    /** The long options of which the name is a prefix, by index. */
    function Candidates(name: string, n: nat): seq<nat>
      requires longs.Some? && n <= |longs.value|
    {
      if n == 0 then []
      else Candidates(name, n - 1) + if name <= longs.value[n - 1].name then [n - 1] else []
    }

    /** The first long option of exactly this name. */
    function Exact(name: string, i: nat): Option<nat>
      requires longs.Some? && i <= |longs.value|
      decreases |longs.value| - i
    {
      if i == |longs.value| then None
      else if longs.value[i].name == name then Some(i) else Exact(name, i + 1)
    }

    /** An exact name wins, otherwise an abbreviation must be unique. */
    function Resolve(name: string): Lookup
      requires longs.Some?
    {
      var exact, candidates := Exact(name, 0), Candidates(name, |longs.value|);
      if exact.Some? then Found(exact.value)
      else if candidates == [] then NotFound
      else if |candidates| == 1 then Found(candidates[0]) else Ambiguous
    }

    lemma ResolveInRange(name: string)
      requires longs.Some?
      ensures Resolve(name).Found? ==> Resolve(name).index < |longs.value|
    {
      ExactInRange(name, 0);
      CandidatesInRange(name, |longs.value|);
      var candidates := Candidates(name, |longs.value|);
      assert candidates != [] ==> candidates[0] in candidates;
    }

    lemma {:induction false} ExactInRange(name: string, i: nat)
      requires longs.Some? && i <= |longs.value|
      ensures Exact(name, i).Some? ==> i <= Exact(name, i).value < |longs.value|
      ensures Exact(name, i).Some? ==> longs.value[Exact(name, i).value].name == name
      ensures Exact(name, i) == None ==> forall j :: i <= j < |longs.value| ==> longs.value[j].name != name
      decreases |longs.value| - i
    {
      if i < |longs.value| { ExactInRange(name, i + 1); }
    }

    lemma {:induction false} CandidatesInRange(name: string, n: nat)
      requires longs.Some? && n <= |longs.value|
      ensures forall i :: i in Candidates(name, n) ==> i < n
    {
      if n > 0 { CandidatesInRange(name, n - 1); }
    }

    predicate LongTakesNext(text: string)
      requires longs.Some?
    {
      var found := Resolve(NameOf(text));
      ResolveInRange(NameOf(text));
      NameOf(text) == text && found.Found? && longs.value[found.index].kind == RequiredArgument
    }

    predicate TakesNext(word: string)
      requires IsOption(word)
    {
      if IsLong(word) then LongTakesNext(word[2..]) else ShortTakesNext(word[1..])
    }

    /** How many words belong to the option at the front. */
    function OptionWords(args: seq<string>): (n: nat)
      requires args != [] && IsOption(args[0])
      ensures 1 <= n <= |args|
    {
      if TakesNext(args[0]) && |args| > 1 then 2 else 1
    }

    /** The options with their arguments, and a first --, in order. */
    function Options(args: seq<string>): seq<string> {
      if args == [] then []
      else if args[0] == "--" then ["--"]
      else if IsOption(args[0]) then args[..OptionWords(args)] + Options(args[OptionWords(args)..])
      else Options(args[1..])
    }

    /** All other words, in order. */
    function Operands(args: seq<string>): seq<string> {
      if args == [] then []
      else if args[0] == "--" then args[1..]
      else if IsOption(args[0]) then Operands(args[OptionWords(args)..])
      else [args[0]] + Operands(args[1..])
    }

    /** What the program is told about a word of short options. */
    function ShortOutcomes(text: string, next: Option<string>): seq<Outcome> {
      if text == "" then []
      else if text[0] !in shorts then [UnknownShort(text[0])] + ShortOutcomes(text[1..], next)
      else if shorts[text[0]] == NoArgument then [Short(text[0], None)] + ShortOutcomes(text[1..], next)
      else if |text| > 1 then [Short(text[0], Some(text[1..]))]
      else if shorts[text[0]] == OptionalArgument then [Short(text[0], None)]
      else if next.Some? then [Short(text[0], next)]
      else [MissingShort(text[0])]
    }

    /** What it is told about a long option, text being what follows the dashes. */
    function LongOutcome(text: string, next: Option<string>): Outcome
      requires longs.Some?
    {
      var name, found := NameOf(text), Resolve(NameOf(text));
      ResolveInRange(name);
      if found.NotFound? then UnknownLong(text)
      else if found.Ambiguous? then AmbiguousLong(text)
      else if |name| < |text| then
        if longs.value[found.index].kind == NoArgument then UnwantedArgument(found.index)
        else Long(found.index, Some(text[|name| + 1..]))
      else if longs.value[found.index].kind != RequiredArgument then Long(found.index, None)
      else if next.Some? then Long(found.index, next) else MissingLong(found.index)
    }

    function WordOutcomes(word: string, next: Option<string>): seq<Outcome>
      requires IsOption(word)
    {
      if IsLong(word) then [LongOutcome(word[2..], next)] else ShortOutcomes(word[1..], next)
    }

    /** What it is told about a whole command line, read from left to right. */
    function Outcomes(args: seq<string>): seq<Outcome> {
      if args == [] || args[0] == "--" then []
      else if IsOption(args[0]) then
        WordOutcomes(args[0], NextWord(args)) + Outcomes(args[OptionWords(args)..])
      else Outcomes(args[1..])
    }

    /** The two are a partition of the words. */
    lemma {:induction false} EveryWordOnce(args: seq<string>)
      ensures multiset(Options(args)) + multiset(Operands(args)) == multiset(args)
    {
      if args == [] {
      } else if args[0] == "--" {
        assert args == ["--"] + args[1..];
      } else if IsOption(args[0]) {
        var n := OptionWords(args);
        EveryWordOnce(args[n..]);
        assert args == args[..n] + args[n..];
      } else {
        EveryWordOnce(args[1..]);
        assert args == [args[0]] + args[1..];
      }
    }

    // ----- reading the rearranged command line again -----

    /** The scan comes to a --. */
    predicate Terminated(args: seq<string>) {
      args != [] &&
      if args[0] == "--" then true
      else Terminated(args[if IsOption(args[0]) then OptionWords(args) else 1..])
    }

    /** The last word is an option without the argument it requires. */
    predicate Starved(args: seq<string>) {
      args != [] && args[0] != "--" &&
      if IsOption(args[0]) then (TakesNext(args[0]) && |args| == 1) || Starved(args[OptionWords(args)..])
      else Starved(args[1..])
    }

    lemma {:induction false} OnlyOperands(words: seq<string>)
      requires forall w :: w in words ==> !IsOption(w)
      ensures Options(words) == [] && Operands(words) == words && Outcomes(words) == []
    {
      if words != [] {
        assert words[0] in words;
        OnlyOperands(words[1..]);
      }
    }

    lemma {:induction false} OperandsAreNotOptions(args: seq<string>)
      requires !Terminated(args)
      ensures forall w :: w in Operands(args) ==> !IsOption(w)
    {
      if args != [] {
        OperandsAreNotOptions(args[if IsOption(args[0]) then OptionWords(args) else 1..]);
      }
    }

    lemma {:induction false} ShortNeedsNoMore(text: string, next: Option<string>, other: Option<string>)
      requires !ShortTakesNext(text)
      ensures ShortOutcomes(text, next) == ShortOutcomes(text, other)
    {
      if text != "" && (text[0] !in shorts || shorts[text[0]] == NoArgument) {
        ShortNeedsNoMore(text[1..], next, other);
      }
    }

    /** An option that does not take the next word does not depend on it. */
    lemma WordNeedsNoMore(word: string, next: Option<string>, other: Option<string>)
      requires IsOption(word) && (TakesNext(word) ==> next == other)
      ensures WordOutcomes(word, next) == WordOutcomes(word, other)
    {
      if !IsLong(word) {
        if !TakesNext(word) { ShortNeedsNoMore(word[1..], next, other); }
      } else if !TakesNext(word) {
        NameOfIsPrefix(word[2..]);
      }
    }

    lemma {:induction false} OptionsInFront(args: seq<string>, tail: seq<string>)
      requires Terminated(args) || forall w :: w in tail ==> !IsOption(w)
      requires !Starved(args) || tail == []
      ensures Options(Options(args) + tail) == Options(args)
      ensures Operands(Options(args) + tail) == tail
      ensures Outcomes(Options(args) + tail) == Outcomes(args)
      decreases |args|, 1
    {
      if args == [] {
        assert Options(args) + tail == tail;
        OnlyOperands(tail);
      } else if args[0] == "--" {
        assert (["--"] + tail)[1..] == tail;
      } else if IsOption(args[0]) {
        OptionInFront(args, tail);
      } else {
        OptionsInFront(args[1..], tail);
      }
    }

    /** The option at the front is still there and reads the same. */
    lemma FirstOptionStays(args: seq<string>, tail: seq<string>, n: nat, again: seq<string>)
      requires args != [] && IsOption(args[0]) && args[0] != "--"
      requires !Starved(args) || tail == []
      requires n == OptionWords(args) && again == Options(args) + tail
      ensures again != [] && again[0] == args[0] && OptionWords(again) == n
      ensures again[n..] == Options(args[n..]) + tail && again[..n] == args[..n]
      ensures WordOutcomes(args[0], NextWord(again)) == WordOutcomes(args[0], NextWord(args))
    {
      assert again == args[..n] + (Options(args[n..]) + tail);
      assert again[0] == args[0];
      if TakesNext(args[0]) && n == 2 { assert again[1] == args[1]; }
      WordNeedsNoMore(args[0], NextWord(again), NextWord(args));
    }

    lemma {:induction false} OptionInFront(args: seq<string>, tail: seq<string>)
      requires args != [] && IsOption(args[0]) && args[0] != "--"
      requires Terminated(args) || forall w :: w in tail ==> !IsOption(w)
      requires !Starved(args) || tail == []
      ensures Options(Options(args) + tail) == Options(args)
      ensures Operands(Options(args) + tail) == tail
      ensures Outcomes(Options(args) + tail) == Outcomes(args)
      decreases |args|, 0
    {
      var n := OptionWords(args);
      FirstOptionStays(args, tail, n, Options(args) + tail);
      OptionsInFront(args[n..], tail);
    }

    lemma {:induction false} StarvedTakesAnOperand(args: seq<string>, tail: seq<string>)
      requires Starved(args) && tail != []
      ensures |Options(Options(args) + tail)| > |Options(args)|
    {
      if IsOption(args[0]) {
        var n := OptionWords(args);
        var again := Options(args) + tail;
        assert again == args[..n] + (Options(args[n..]) + tail);
        assert again[0] == args[0];
        if TakesNext(args[0]) && |args| == 1 {
          assert Options(args[n..]) == [];
          assert OptionWords(again) == 2;
        } else {
          StarvedTakesAnOperand(args[n..], tail);
          assert OptionWords(again) == n;
          assert again[n..] == Options(args[n..]) + tail;
        }
      } else {
        StarvedTakesAnOperand(args[1..], tail);
      }
    }

    /** The rearranged command line reads like the original and stays as it is, exactly when
        its last word is not an option that would now find an operand to take. */
    lemma RereadExactlyWhen(args: seq<string>)
      ensures Options(Options(args) + Operands(args)) == Options(args)
         <==> !Starved(args) || Operands(args) == []
      ensures !Starved(args) || Operands(args) == [] ==>
        && Operands(Options(args) + Operands(args)) == Operands(args)
        && Outcomes(Options(args) + Operands(args)) == Outcomes(args)
    {
      if !Terminated(args) { OperandsAreNotOptions(args); }
      if !Starved(args) || Operands(args) == [] {
        OptionsInFront(args, Operands(args));
      } else {
        StarvedTakesAnOperand(args, Operands(args));
      }
    }
  }

  /** "all -f", where -f requires an argument: it lacks one, and the line becomes "-f all", in
      which it has one. */
  lemma MisplacedFlag(sx: Syntax)
    requires 'f' in sx.shorts && sx.shorts['f'] == RequiredArgument
    ensures sx.Options(["all", "-f"]) == ["-f"] && sx.Operands(["all", "-f"]) == ["all"]
    ensures sx.Outcomes(["all", "-f"]) == [MissingShort('f')]
    ensures sx.Options(["-f", "all"]) == ["-f", "all"] && sx.Operands(["-f", "all"]) == []
    ensures sx.Outcomes(["-f", "all"]) == [Short('f', Some("all"))]
  {
    var args, again := ["all", "-f"], ["-f", "all"];
    assert args[1..] == ["-f"] && ["-f"][1..] == [] && again[2..] == [] && again[..2] == again;
    assert "-f"[1..] == "f" && "f"[1..] == "";
    assert ["-f"][..1] == ["-f"];
    assert sx.Options([]) == [] && sx.Operands([]) == [] && sx.Outcomes([]) == [];
  }

  lemma {:induction false} NameOfIsPrefix(text: string)
    ensures NameOf(text) <= text
  {
    if text != "" && text[0] != '=' { NameOfIsPrefix(text[1..]); }
  }

  // ----- exchanging two adjacent blocks -----

  /** The sequence with the blocks [b, m) and [m, t) exchanged. */
  function Exchanged<T>(v: seq<T>, b: nat, m: nat, t: nat): (r: seq<T>)
    requires b <= m <= t <= |v|
  {
    v[..b] + v[m..t] + v[b..m] + v[t..]
  }

  /** Where the word at position k of the result comes from. */
  function Source(b: nat, m: nat, t: nat, k: nat): (j: nat)
    requires b <= m <= t
    ensures k < t ==> j < t
  {
    if k < b || k >= t then k else if k < b + (t - m) then k + (m - b) else k - (t - m)
  }

  lemma ExchangedAt<T>(v: seq<T>, b: nat, m: nat, t: nat)
    requires b <= m <= t <= |v|
    ensures |Exchanged(v, b, m, t)| == |v|
    ensures forall k: nat {:trigger Exchanged(v, b, m, t)[k]} :: k < |v| ==>
      Exchanged(v, b, m, t)[k] == v[Source(b, m, t, k)]
  {
  }

  /** The words at x and y, len of each, change places. */
  ghost predicate Swapped<T>(v: seq<T>, w: seq<T>, x: nat, y: nat, len: nat)
    requires x + len <= y && y + len <= |v| && |w| == |v|
  {
    forall k: nat {:trigger w[k]} :: k < |v| ==>
      w[k] == v[if x <= k < x + len then k + (y - x) else if y <= k < y + len then k - (y - x) else k]
  }

  /** Swapping the shorter block with the far end of the longer one leaves the rest to do. */
  lemma ShorterBottom<T>(v: seq<T>, w: seq<T>, b: nat, m: nat, t': nat, t: nat)
    requires b <= m <= t <= |v| && |w| == |v| && t' == t - (m - b) > m
    requires Swapped(v, w, b, t', m - b)
    ensures Exchanged(w, b, m, t') == Exchanged(v, b, m, t)
  {
    ExchangedAt(v, b, m, t);
    ExchangedAt(w, b, m, t');
    forall k: nat | k < |v| ensures Exchanged(w, b, m, t')[k] == Exchanged(v, b, m, t)[k] {
      assert Exchanged(w, b, m, t')[k] == w[Source(b, m, t', k)];
    }
  }

  lemma ShorterTop<T>(v: seq<T>, w: seq<T>, b: nat, b': nat, m: nat, t: nat)
    requires b <= m <= t <= |v| && |w| == |v| && b' == b + (t - m) <= m
    requires Swapped(v, w, b, m, t - m)
    ensures Exchanged(w, b', m, t) == Exchanged(v, b, m, t)
  {
    ExchangedAt(v, b, m, t);
    ExchangedAt(w, b', m, t);
    forall k: nat | k < |v| ensures Exchanged(w, b', m, t)[k] == Exchanged(v, b, m, t)[k] {
      assert Exchanged(w, b', m, t)[k] == w[Source(b', m, t, k)];
    }
  }

  lemma SwapOneMore<T>(v: seq<T>, w: seq<T>, x: nat, y: nat, i: nat)
    requires x + i < y && y + i < |v| && |w| == |v| && Swapped(v, w, x, y, i)
    ensures Swapped(v, w[x + i := w[y + i]][y + i := w[x + i]], x, y, i + 1)
  {
    assert w[y + i] == v[y + i] && w[x + i] == v[x + i];
  }

  /** The inner loop: swap two blocks of the same length. */
  method SwapBlocks<T>(argv: array<T>, x: nat, y: nat, len: nat)
    requires x + len <= y && y + len <= argv.Length
    modifies argv
    ensures Swapped(old(argv[..]), argv[..], x, y, len)
  {
    ghost var v := argv[..];
    for i := 0 to len
      invariant Swapped(v, argv[..], x, y, i)
    {
      ghost var w := argv[..];
      argv[x + i], argv[y + i] := argv[y + i], argv[x + i];
      assert argv[..] == w[x + i := w[y + i]][y + i := w[x + i]];
      SwapOneMore(v, w, x, y, i);
    }
  }

  /** One round of exchange: what is left to exchange has the same result. */
  method ShorterBottomRound<T>(argv: array<T>, bottom: nat, middle: nat, top: nat) returns (t: nat)
    requires bottom < middle < top <= argv.Length && top - middle > middle - bottom
    modifies argv
    ensures middle <= t < top
    ensures Exchanged(argv[..], bottom, middle, t) == Exchanged(old(argv[..]), bottom, middle, top)
  {
    ghost var v := argv[..];
    t := top - (middle - bottom);
    SwapBlocks(argv, bottom, t, middle - bottom);
    ghost var w := argv[..];
    ShorterBottom(v, w, bottom, middle, t, top);
  }

  method ShorterTopRound<T>(argv: array<T>, bottom: nat, middle: nat, top: nat) returns (b: nat)
    requires bottom < middle < top <= argv.Length && top - middle <= middle - bottom
    modifies argv
    ensures bottom < b <= middle
    ensures Exchanged(argv[..], b, middle, top) == Exchanged(old(argv[..]), bottom, middle, top)
  {
    ghost var v := argv[..];
    b := bottom + (top - middle);
    SwapBlocks(argv, bottom, middle, top - middle);
    ghost var w := argv[..];
    ShorterTop(v, w, bottom, b, middle, top);
  }

  lemma NothingToExchange<T>(v: seq<T>, b: nat, m: nat, t: nat)
    requires b <= m <= t <= |v| && (b == m || m == t)
    ensures Exchanged(v, b, m, t) == v
  {
  }

  /** exchange */
  method ExchangeBlocks<T>(argv: array<T>, firstNonopt: nat, lastNonopt: nat, optind: nat)
    requires firstNonopt <= lastNonopt <= optind <= argv.Length
    modifies argv
    ensures argv[..] == Exchanged(old(argv[..]), firstNonopt, lastNonopt, optind)
  {
    var bottom: nat, middle: nat, top: nat := firstNonopt, lastNonopt, optind;
    while top > middle && middle > bottom
      invariant bottom <= middle <= top <= argv.Length
      invariant Exchanged(argv[..], bottom, middle, top) == Exchanged(old(argv[..]), firstNonopt, lastNonopt, optind)
      decreases top - bottom
    {
      if top - middle > middle - bottom {
        top := ShorterBottomRound(argv, bottom, middle, top);
      } else {
        bottom := ShorterTopRound(argv, bottom, middle, top);
      }
    }
    NothingToExchange(argv[..], bottom, middle, top);
  }

  // ----- a run -----

  /** A run has put aside the words o and n, the rest is ahead, and of its first word the
      options in nextchar. */
  ghost predicate Reached(x: Syntax, args: seq<string>, seen: seq<Outcome>,
      o: seq<string>, n: seq<string>, rest: seq<string>, nextchar: string)
  {
    && o + x.Options(rest) == x.Options(args)
    && n + x.Operands(rest) == x.Operands(args)
    && (nextchar != "" ==> InCluster(x, rest, nextchar))
    && seen + Pending(x, rest, nextchar) == x.Outcomes(args)
  }

  /** nextchar is in a word of short options, and agrees with it on the need of an argument. */
  ghost predicate InCluster(x: Syntax, rest: seq<string>, nextchar: string) {
    && rest != [] && rest[0] != "--" && IsOption(rest[0]) && !x.IsLong(rest[0])
    && x.ShortTakesNext(nextchar) == x.ShortTakesNext(rest[0][1..])
  }

  ghost function Pending(x: Syntax, rest: seq<string>, nextchar: string): seq<Outcome>
    requires nextchar != "" ==> InCluster(x, rest, nextchar)
  {
    if nextchar == "" then x.Outcomes(rest)
    else x.ShortOutcomes(nextchar, NextWord(rest)) + x.Outcomes(rest[x.OptionWords(rest)..])
  }

  lemma OperandSkipped(x: Syntax, args: seq<string>, seen: seq<Outcome>, o: seq<string>, n: seq<string>,
                       rest: seq<string>)
    requires Reached(x, args, seen, o, n, rest, "")
    requires rest != [] && !IsOption(rest[0])
    ensures Reached(x, args, seen, o, n + [rest[0]], rest[1..], "")
  {
    Regroup(n, [rest[0]], x.Operands(rest[1..]));
  }

  lemma ClusterEntered(x: Syntax, args: seq<string>, seen: seq<Outcome>, o: seq<string>, n: seq<string>,
                       rest: seq<string>)
    requires Reached(x, args, seen, o, n, rest, "")
    requires rest != [] && IsOption(rest[0]) && rest[0] != "--" && !x.IsLong(rest[0])
    ensures Reached(x, args, seen, o, n, rest, rest[0][1..])
  {
  }

  /** The word of options at the front is done, with its argument. */
  lemma WordDone(x: Syntax, args: seq<string>, seen: seq<Outcome>, o: seq<string>, n: seq<string>, rest: seq<string>,
      nextchar: string, outcome: Outcome)
    requires rest != [] && IsOption(rest[0]) && rest[0] != "--"
    requires Reached(x, args, seen, o, n, rest, nextchar)
    requires Pending(x, rest, nextchar) == [outcome] + x.Outcomes(rest[x.OptionWords(rest)..])
    ensures Reached(x, args, seen + [outcome], o + rest[..x.OptionWords(rest)], n, rest[x.OptionWords(rest)..], "")
  {
    var k := x.OptionWords(rest);
    Regroup(o, rest[..k], x.Options(rest[k..]));
    Regroup(seen, [outcome], x.Outcomes(rest[k..]));
  }

  lemma ClusterMoved(x: Syntax, args: seq<string>, seen: seq<Outcome>, o: seq<string>, n: seq<string>,
                     rest: seq<string>, nextchar: string, outcome: Outcome)
    requires |nextchar| > 1
    requires Reached(x, args, seen, o, n, rest, nextchar)
    requires x.ShortTakesNext(nextchar[1..]) == x.ShortTakesNext(nextchar)
    requires x.ShortOutcomes(nextchar, NextWord(rest)) == [outcome] + x.ShortOutcomes(nextchar[1..], NextWord(rest))
    ensures Reached(x, args, seen + [outcome], o, n, rest, nextchar[1..])
  {
    var after := x.Outcomes(rest[x.OptionWords(rest)..]);
    Regroup([outcome], x.ShortOutcomes(nextchar[1..], NextWord(rest)), after);
    Regroup(seen, [outcome], Pending(x, rest, nextchar[1..]));
  }

  lemma NothingAhead(x: Syntax, args: seq<string>, seen: seq<Outcome>, o: seq<string>, n: seq<string>)
    requires Reached(x, args, seen, o, n, [], "")
    ensures o == x.Options(args) && n == x.Operands(args) && seen == x.Outcomes(args)
  {
    assert o + [] == o && n + [] == n && seen + [] == seen;
  }

  // ----- getopt -----

  function Min(a: nat, b: nat): nat {
    if a > b then b else a
  }

  class Getopt {
    const syntax: Syntax
    const argv: array<string>
    var optind: nat
    var nextchar: string
    var firstNonopt: nat
    var lastNonopt: nat

    ghost predicate Valid()
      reads this
    {
      1 <= firstNonopt <= lastNonopt <= optind <= argv.Length
    }

    /** The options moved to the front so far and those that follow the block of operands. */
    ghost function Moved(): seq<string>
      requires Valid()
      reads this, argv
    {
      argv[1..firstNonopt] + argv[lastNonopt..optind]
    }

    /** The state belongs to a run over args that has reported what was seen, and has the
        short options in ahead to look at next. */
    ghost predicate Standing(args: seq<string>, seen: seq<Outcome>, ahead: string)
      reads this, argv
    {
      && Valid()
      && Reached(syntax, args, seen, Moved(), argv[firstNonopt..lastNonopt], argv[optind..], ahead)
    }

    ghost predicate Running(args: seq<string>, seen: seq<Outcome>)
      reads this, argv
    {
      Standing(args, seen, nextchar)
    }

    /** _getopt_initialize */
    constructor (syntax: Syntax, argv: array<string>)
      requires argv.Length > 0
      ensures this.argv == argv && this.syntax == syntax
      ensures Running(argv[1..], [])
    {
      this.syntax, this.argv := syntax, argv;
      optind, firstNonopt, lastNonopt := 1, 1, 1;
      nextchar := "";
    }

    /** exchange, with the update of the block of operands. */
    method Exchange()
      requires Valid()
      modifies this`firstNonopt, this`lastNonopt, argv
      ensures Valid() && lastNonopt == optind
      ensures firstNonopt == old(firstNonopt + (optind - lastNonopt))
      ensures argv[1..firstNonopt] == old(argv[1..firstNonopt] + argv[lastNonopt..optind])
      ensures argv[firstNonopt..lastNonopt] == old(argv[firstNonopt..lastNonopt])
      ensures argv[optind..] == old(argv[optind..]) && argv[0] == old(argv[0])
    {
      ghost var v := argv[..];
      ExchangeBlocks(argv, firstNonopt, lastNonopt, optind);
      BlocksExchanged(v, argv[..], firstNonopt, lastNonopt, optind);
      firstNonopt := firstNonopt + (optind - lastNonopt);
      lastNonopt := optind;
    }

    /** If options have just been processed after some operands, put the options first. */
    method Settle()
      requires Valid()
      modifies this`firstNonopt, this`lastNonopt, argv
      ensures Valid() && lastNonopt == optind && argv[0] == old(argv[0])
      ensures Moved() == old(Moved()) && argv[firstNonopt..lastNonopt] == old(argv[firstNonopt..lastNonopt])
      ensures argv[optind..] == old(argv[optind..])
    {
      lastNonopt := Min(lastNonopt, optind);
      firstNonopt := Min(firstNonopt, optind);
      if firstNonopt != lastNonopt && lastNonopt != optind {
        Exchange();
        assert argv[lastNonopt..optind] == [];
      } else if lastNonopt != optind {
        assert argv[1..firstNonopt] + argv[lastNonopt..optind] == argv[1..optind];
        firstNonopt := optind;
        lastNonopt := optind;
        assert argv[lastNonopt..optind] == [];
      }
    }

    method SkipOperands(ghost args: seq<string>, ghost seen: seq<Outcome>)
      requires Running(args, seen) && nextchar == "" && lastNonopt == optind
      modifies this`optind, this`lastNonopt
      ensures Running(args, seen) && lastNonopt == optind
      ensures optind < argv.Length ==> IsOption(argv[optind])
    {
      while optind < argv.Length && !IsOption(argv[optind])
        invariant Running(args, seen) && lastNonopt == optind && nextchar == ""
        decreases argv.Length - optind
      {
        SkipOperand(args, seen);
      }
    }

    method SkipOperand(ghost args: seq<string>, ghost seen: seq<Outcome>)
      requires Running(args, seen) && nextchar == "" && lastNonopt == optind
      requires optind < argv.Length && !IsOption(argv[optind])
      modifies this`optind, this`lastNonopt
      ensures Running(args, seen) && lastNonopt == optind == old(optind) + 1
    {
      OperandSkipped(syntax, args, seen, Moved(), argv[firstNonopt..lastNonopt], argv[optind..]);
      assert argv[firstNonopt..optind + 1] == argv[firstNonopt..optind] + [argv[optind]];
      assert argv[optind + 1..] == argv[optind..][1..];
      assert argv[optind + 1..optind + 1] == [] == argv[optind..optind];
      optind := optind + 1;
      lastNonopt := optind;
    }

    /** What getopt leaves behind: the options, then the operands, and optind where these begin. */
    ghost predicate Finished(args: seq<string>)
      requires argv.Length > 0
      reads this, argv
    {
      && argv[1..] == syntax.Options(args) + syntax.Operands(args)
      && optind == 1 + |syntax.Options(args)|
    }

    lemma AtTerminator(args: seq<string>, seen: seq<Outcome>)
      requires Running(args, seen) && nextchar == "" && lastNonopt == optind
      requires optind < argv.Length && argv[optind] == "--"
      ensures syntax.Options(args) == argv[1..firstNonopt] + ["--"]
      ensures syntax.Operands(args) == argv[firstNonopt..optind] + argv[optind + 1..]
      ensures seen == syntax.Outcomes(args)
    {
      assert argv[lastNonopt..optind] == [] && Moved() == argv[1..firstNonopt];
      assert argv[optind..][1..] == argv[optind + 1..];
    }

    /** Pass a -- and put it before the operands like an option. */
    method PassTerminator()
      requires Valid() && lastNonopt == optind < argv.Length && argv[optind] == "--"
      modifies this`optind, this`firstNonopt, this`lastNonopt, argv
      ensures 1 <= firstNonopt <= optind <= argv.Length && argv[0] == old(argv[0])
      ensures argv[1..firstNonopt] == old(argv[1..firstNonopt]) + ["--"]
      ensures argv[firstNonopt..] == old(argv[firstNonopt..optind] + argv[optind + 1..])
    {
      optind := optind + 1;
      assert argv[lastNonopt..optind] == ["--"];
      if firstNonopt != lastNonopt && lastNonopt != optind {
        Exchange();
      } else if firstNonopt == lastNonopt {
        assert argv[1..optind] == argv[1..firstNonopt] + ["--"];
        firstNonopt := optind;
      }
      assert argv[firstNonopt..] == argv[firstNonopt..optind] + argv[optind..];
    }

    /** A first -- ends the options. */
    method Terminate(ghost args: seq<string>, ghost seen: seq<Outcome>)
      requires Running(args, seen) && nextchar == "" && lastNonopt == optind
      requires optind < argv.Length && argv[optind] == "--"
      modifies this`optind, this`firstNonopt, this`lastNonopt, argv
      ensures Valid() && lastNonopt == optind == argv.Length && argv[0] == old(argv[0])
      ensures argv[1..firstNonopt] == syntax.Options(args) && argv[firstNonopt..] == syntax.Operands(args)
      ensures seen == syntax.Outcomes(args)
    {
      AtTerminator(args, seen);
      PassTerminator();
      lastNonopt := argv.Length;
      optind := argv.Length;
    }

    /** Back over the operands that were skipped. */
    method BackOver(ghost args: seq<string>)
      requires Valid() && lastNonopt == optind == argv.Length
      requires argv[1..firstNonopt] == syntax.Options(args) && argv[firstNonopt..] == syntax.Operands(args)
      modifies this`optind
      ensures Finished(args)
    {
      assert argv[1..] == argv[1..firstNonopt] + argv[firstNonopt..];
      if firstNonopt != lastNonopt { optind := firstNonopt; }
    }

    /** All words have been read. */
    lemma EndOfWords(args: seq<string>, seen: seq<Outcome>)
      requires Running(args, seen) && nextchar == "" && lastNonopt == optind == argv.Length
      ensures argv[1..firstNonopt] == syntax.Options(args) && argv[firstNonopt..] == syntax.Operands(args)
      ensures seen == syntax.Outcomes(args)
    {
      assert argv[lastNonopt..optind] == [] && argv[optind..] == [];
      assert argv[firstNonopt..optind] == argv[firstNonopt..];
      NothingAhead(syntax, args, seen, Moved(), argv[firstNonopt..lastNonopt]);
      assert Moved() == argv[1..firstNonopt];
    }

    /** Advance to the next word with options, if there is one. */
    method Advance(ghost args: seq<string>, ghost seen: seq<Outcome>) returns (more: bool)
      requires Running(args, seen) && nextchar == ""
      modifies this`optind, this`firstNonopt, this`lastNonopt, argv
      ensures argv[0] == old(argv[0])
      ensures more ==> Running(args, seen) && optind < argv.Length && IsOption(argv[optind]) && argv[optind] != "--"
      ensures !more ==> Finished(args) && seen == syntax.Outcomes(args)
    {
      Settle();
      SkipOperands(args, seen);
      more := true;
      if optind != argv.Length && argv[optind] == "--" {
        Terminate(args, seen);
        BackOver(args);
        more := false;
      } else if optind == argv.Length {
        EndOfWords(args, seen);
        BackOver(args);
        more := false;
      }
    }

    /** Look a long option up by its name or an abbreviation of it. */
    method FindLong(name: string) returns (found: Lookup)
      requires syntax.longs.Some?
      ensures found == syntax.Resolve(name)
      ensures found.Found? ==> found.index < |syntax.longs.value|
    {
      var longs := syntax.longs.value;
      var ambiguous := false;
      var index: nat := 0;
      found := NotFound;
      while index < |longs|
        invariant index <= |longs|
        invariant syntax.Exact(name, 0) == syntax.Exact(name, index)
        invariant found
          == if syntax.Candidates(name, index) == [] then NotFound else Found(syntax.Candidates(name, index)[0])
        invariant ambiguous <==> |syntax.Candidates(name, index)| > 1
      {
        if name <= longs[index].name {
          if |longs[index].name| == |name| {
            found := Found(index);
            ambiguous := false;
            break;
          } else if found == NotFound {
            found := Found(index);
          } else {
            ambiguous := true;
          }
        }
        index := index + 1;
      }
      if ambiguous { found := Ambiguous; }
      syntax.ResolveInRange(name);
    }

    /** Decode a long option, which may take the next word as its argument. */
    method DecodeLong() returns (outcome: Outcome)
      requires optind < argv.Length && IsOption(argv[optind]) && syntax.IsLong(argv[optind])
      requires nextchar == argv[optind][2..]
      modifies this`optind
      ensures outcome == syntax.LongOutcome(nextchar, NextWord(old(argv[optind..])))
      ensures optind == old(optind + syntax.OptionWords(argv[optind..]))
    {
      var name := NameEnd(nextchar);
      var found := FindLong(nextchar[..name]);
      optind := optind + 1;
      if found.Ambiguous? {
        outcome := AmbiguousLong(nextchar);
      } else if found.Found? {
        var kind := syntax.longs.value[found.index].kind;
        if name < |nextchar| {
          if kind != NoArgument {
            outcome := Long(found.index, Some(nextchar[name + 1..]));
          } else {
            outcome := UnwantedArgument(found.index);
          }
        } else if kind == RequiredArgument {
          if optind < argv.Length {
            outcome := Long(found.index, Some(argv[optind]));
            optind := optind + 1;
          } else {
            outcome := MissingLong(found.index);
          }
        } else {
          outcome := Long(found.index, None);
        }
      } else {
        outcome := UnknownLong(nextchar);
      }
    }

    method LongOption(ghost args: seq<string>, ghost seen: seq<Outcome>) returns (outcome: Outcome)
      requires Standing(args, seen, "") && optind < argv.Length
      requires IsOption(argv[optind]) && argv[optind] != "--" && syntax.IsLong(argv[optind])
      requires nextchar == argv[optind][2..]
      modifies this`optind, this`nextchar
      ensures Running(args, seen + [outcome]) && outcome != End
    {
      ghost var was := optind;
      outcome := DecodeLong();
      nextchar := "";
      LongPassed(args, seen, was, outcome);
    }

    /** The long option is done, with its argument. */
    lemma LongPassed(args: seq<string>, seen: seq<Outcome>, was: nat, outcome: Outcome)
      requires Valid() && lastNonopt <= was < argv.Length && IsOption(argv[was]) && argv[was] != "--"
      requires optind == was + syntax.OptionWords(argv[was..]) && syntax.IsLong(argv[was])
      requires outcome == syntax.LongOutcome(argv[was][2..], NextWord(argv[was..]))
      requires Reached(syntax, args, seen, argv[1..firstNonopt] + argv[lastNonopt..was],
                       argv[firstNonopt..lastNonopt], argv[was..], "")
      ensures Standing(args, seen + [outcome], "")
    {
      var rest := argv[was..];
      WordDone(syntax, args, seen, argv[1..firstNonopt] + argv[lastNonopt..was], argv[firstNonopt..lastNonopt], rest,
               "", outcome);
      WordIsPassed(was, syntax.OptionWords(rest));
    }

    lemma WordIsPassed(was: nat, k: nat)
      requires Valid() && lastNonopt <= was && optind == was + k
      ensures Moved() == (argv[1..firstNonopt] + argv[lastNonopt..was]) + argv[was..][..k]
      ensures argv[optind..] == argv[was..][k..]
    {
      assert argv[lastNonopt..optind] == argv[lastNonopt..was] + argv[was..][..k];
      Regroup(argv[1..firstNonopt], argv[lastNonopt..was], argv[was..][..k]);
    }

    /** The word of short options is done, with the argument of its last option. */
    lemma ClusterPassed(args: seq<string>, seen: seq<Outcome>, was: nat, text: string, outcome: Outcome)
      requires Valid() && lastNonopt <= was < argv.Length && text != ""
      requires Reached(syntax, args, seen, argv[1..firstNonopt] + argv[lastNonopt..was],
                       argv[firstNonopt..lastNonopt], argv[was..], text)
      requires optind == was + syntax.OptionWords(argv[was..])
      requires syntax.ShortOutcomes(text, NextWord(argv[was..]))
            == [outcome] + syntax.ShortOutcomes("", NextWord(argv[was..]))
      ensures Standing(args, seen + [outcome], "")
    {
      var rest := argv[was..];
      ClusterDone(syntax, args, seen, argv[1..firstNonopt] + argv[lastNonopt..was], argv[firstNonopt..lastNonopt],
                  rest, text, outcome);
      WordIsPassed(was, syntax.OptionWords(rest));
    }

    /** Decode one short option. The whole word is done when nextchar is used up. */
    method DecodeShort() returns (outcome: Outcome)
      requires optind < argv.Length && nextchar != ""
      modifies this`optind, this`nextchar
      ensures outcome != End
      ensures nextchar != "" ==> nextchar == old(nextchar)[1..] && optind == old(optind)
      ensures nextchar != "" ==> syntax.ShortTakesNext(nextchar) == syntax.ShortTakesNext(old(nextchar))
      ensures syntax.ShortOutcomes(old(nextchar), NextWord(old(argv[optind..])))
           == [outcome] + syntax.ShortOutcomes(nextchar, NextWord(old(argv[optind..])))
      ensures nextchar == "" ==>
        optind == old(optind) + if syntax.ShortTakesNext(old(nextchar)) && old(optind) + 1 < argv.Length then 2 else 1
    {
      var c := nextchar[0];
      nextchar := nextchar[1..];
      if nextchar == "" { optind := optind + 1; }
      if c !in syntax.shorts {
        outcome := UnknownShort(c);
      } else if syntax.shorts[c] == OptionalArgument {
        if nextchar != "" {
          outcome := Short(c, Some(nextchar));
          optind := optind + 1;
        } else {
          outcome := Short(c, None);
        }
        nextchar := "";
      } else if syntax.shorts[c] == RequiredArgument {
        if nextchar != "" {
          outcome := Short(c, Some(nextchar));
          optind := optind + 1;
        } else if optind == argv.Length {
          outcome := MissingShort(c);
        } else {
          outcome := Short(c, Some(argv[optind]));
          optind := optind + 1;
        }
        nextchar := "";
      } else {
        outcome := Short(c, None);
      }
    }

    method ShortOption(ghost args: seq<string>, ghost seen: seq<Outcome>) returns (outcome: Outcome)
      requires Running(args, seen) && nextchar != ""
      modifies this`optind, this`nextchar
      ensures Running(args, seen + [outcome]) && outcome != End
    {
      ghost var was := optind;
      ghost var text := nextchar;
      outcome := DecodeShort();
      if nextchar == "" {
        ClusterPassed(args, seen, was, text, outcome);
      } else {
        ClusterMoved(syntax, args, seen, Moved(), argv[firstNonopt..lastNonopt], argv[optind..], text, outcome);
      }
    }

    /** The first option of a word. */
    method NextWordOption(ghost args: seq<string>, ghost seen: seq<Outcome>) returns (outcome: Outcome)
      requires Running(args, seen) && nextchar == ""
      requires optind < argv.Length && IsOption(argv[optind]) && argv[optind] != "--"
      modifies this`optind, this`nextchar
      ensures Running(args, seen + [outcome]) && outcome != End
    {
      if syntax.IsLong(argv[optind]) {
        nextchar := argv[optind][2..];
        outcome := LongOption(args, seen);
      } else {
        ClusterEntered(syntax, args, seen, Moved(), argv[firstNonopt..lastNonopt], argv[optind..]);
        nextchar := argv[optind][1..];
        outcome := ShortOption(args, seen);
      }
    }

    /** One call of getopt. The next option is reported, until there are no more. */
    method Next(ghost args: seq<string>, ghost seen: seq<Outcome>) returns (outcome: Outcome)
      requires Running(args, seen)
      modifies this`optind, this`nextchar, this`firstNonopt, this`lastNonopt, argv
      ensures argv[0] == old(argv[0])
      ensures outcome != End ==> Running(args, seen + [outcome])
      ensures outcome == End ==> Finished(args) && seen == syntax.Outcomes(args)
    {
      if nextchar == "" {
        var more := Advance(args, seen);
        if !more {
          return End;
        }
        outcome := NextWordOption(args, seen);
      } else {
        outcome := ShortOption(args, seen);
      }
    }

    /** All calls of a run. The options are those of a reading from left to right, and argv is
        a stable partition: options, then operands, with optind where the operands begin. */
    method Run(ghost args: seq<string>) returns (outcomes: seq<Outcome>)
      requires Running(args, [])
      modifies this, argv
      ensures outcomes == syntax.Outcomes(args) && argv[0] == old(argv[0])
      ensures Finished(args)
    {
      outcomes := [];
      var outcome := Next(args, outcomes);
      while outcome != End
        invariant argv[0] == old(argv[0])
        invariant outcome != End ==> Running(args, outcomes + [outcome])
        invariant outcome == End ==> Finished(args) && outcomes == syntax.Outcomes(args)
        decreases if outcome == End then 0 else |syntax.Outcomes(args)| - |outcomes|
      {
        outcomes := outcomes + [outcome];
        outcome := Next(args, outcomes);
      }
    }
  }

  method NameEnd(text: string) returns (end: nat)
    ensures end <= |text| && text[..end] == NameOf(text)
  {
    end := 0;
    while end < |text| && text[end] != '='
      invariant end <= |text| && NameOf(text) == text[..end] + NameOf(text[end..])
    {
      end := end + 1;
    }
  }

  lemma ClusterDone(x: Syntax, args: seq<string>, seen: seq<Outcome>, o: seq<string>, n: seq<string>, rest: seq<string>,
      nextchar: string, outcome: Outcome)
    requires nextchar != ""
    requires Reached(x, args, seen, o, n, rest, nextchar)
    requires x.ShortOutcomes(nextchar, NextWord(rest)) == [outcome] + x.ShortOutcomes("", NextWord(rest))
    ensures Reached(x, args, seen + [outcome], o + rest[..x.OptionWords(rest)], n, rest[x.OptionWords(rest)..], "")
  {
    assert x.ShortOutcomes(nextchar, NextWord(rest)) == [outcome];
    WordDone(x, args, seen, o, n, rest, nextchar, outcome);
  }

  lemma BlocksExchanged<T>(v: seq<T>, w: seq<T>, b: nat, m: nat, t: nat)
    requires 1 <= b <= m <= t <= |v| && w == Exchanged(v, b, m, t)
    ensures |w| == |v|
    ensures w[1..b + (t - m)] == v[1..b] + v[m..t]
    ensures w[b + (t - m)..t] == v[b..m]
    ensures w[t..] == v[t..] && w[0] == v[0]
  {
  }
}
