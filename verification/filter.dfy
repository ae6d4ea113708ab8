/** $(filter) and $(filter-out): the hashed treatment of literal patterns
    agrees with comparing every pattern to every word. */
module Filter {
  import opened HashTables
  import opened Prelude

  /** A pattern whose unquoted % was found, or not. */
  datatype Pattern = Literal(str: string) | Percent(prefix: string, suffix: string)

  /** An entry of the word table: equal words compare equal wherever they stand. */
  datatype Word = Word(index: nat, str: string)

  /** pattern_matches */
  predicate PatternMatches(prefix: string, suffix: string, str: string) {
    |str| >= |prefix| + |suffix| && str[..|prefix|] == prefix && str[|str| - |suffix|..] == suffix
  }

  /** A percent pattern matches exactly the strings with a stem in place of the %. */
  lemma MatchesWithStem(prefix: string, suffix: string, str: string)
    ensures PatternMatches(prefix, suffix, str) <==> exists stem: string :: str == prefix + stem + suffix
  {
    if PatternMatches(prefix, suffix, str) {
      assert str == prefix + str[|prefix|..|str| - |suffix|] + suffix;
    }
  }

  predicate Matches(p: Pattern, str: string) {
    match p
    case Literal(s) => s == str
    case Percent(prefix, suffix) => PatternMatches(prefix, suffix, str)
  }

  predicate MatchesAny(patterns: seq<Pattern>, str: string) {
    exists p :: p in patterns && Matches(p, str)
  }

  /** The number of patterns without an unquoted %. */
  function Literals(patterns: seq<Pattern>): nat {
    if patterns == [] then 0 else Literals(patterns[1..]) + if patterns[0].Literal? then 1 else 0
  }

  /** What the two functions promise: the words that match some pattern, or
      those that match none, in order and with their duplicates. */
  function Selected(patterns: seq<Pattern>, words: seq<string>, isFilter: bool): seq<string> {
    if words == [] then []
    else
      var rest, last := Selected(patterns, words[..|words| - 1], isFilter), words[|words| - 1];
      if MatchesAny(patterns, last) == isFilter then rest + [last] else rest
  }

  lemma SelectedOne(patterns: seq<Pattern>, word: string, isFilter: bool)
    ensures Selected(patterns, [word], isFilter) == if MatchesAny(patterns, word) == isFilter then [word] else []
  {
    assert [word][..0] == [];
  }

  /** What is selected from two lists together is what is selected from each, in order. */
  lemma {:induction false} SelectedFromBoth(patterns: seq<Pattern>, a: seq<string>, b: seq<string>, isFilter: bool)
    ensures Selected(patterns, a + b, isFilter) == Selected(patterns, a, isFilter) + Selected(patterns, b, isFilter)
    decreases |b|
  {
    if b == [] {
      assert a + b == a;
    } else {
      var most := b[..|b| - 1];
      assert (a + b)[..|a + b| - 1] == a + most;
      SelectedFromBoth(patterns, a, most, isFilter);
    }
  }

  /** A word is selected as often as it occurs, or not at all. */
  lemma {:induction false} SelectedExactly(patterns: seq<Pattern>, words: seq<string>, isFilter: bool, word: string)
    ensures multiset(Selected(patterns, words, isFilter))[word]
      == if MatchesAny(patterns, word) == isFilter then multiset(words)[word] else 0
  {
    if words != [] {
      var most := words[..|words| - 1];
      SelectedExactly(patterns, most, isFilter, word);
      assert words == most + [words[|words| - 1]];
    }
  }

  /** Index of the last occurrence of a word before position n. */
  ghost function LastBefore(words: seq<string>, n: nat, s: string): (r: Option<nat>)
    requires n <= |words|
    ensures r.Some? ==> r.value < n && words[r.value] == s
    ensures forall i: nat :: i < n && words[i] == s ==> r.Some? && i <= r.value
  {
    if n == 0 then None else if words[n - 1] == s then Some(n - 1) else LastBefore(words, n - 1, s)
  }

  /** Nothing lies strictly between an occurrence and the previous one. */
  lemma {:induction false} ChainSkipsNothing(words: seq<string>, n: nat, s: string)
    requires n <= |words| && LastBefore(words, n, s).Some?
    ensures var i := LastBefore(words, n, s).value; forall j: nat :: i < j < n ==> words[j] != s
  {
  }

  ghost predicate ChainsUpTo(words: seq<string>, chain: seq<Option<nat>>, n: nat) {
    n <= |words| == |chain| && forall i: nat {:trigger chain[i]} :: i < n ==> chain[i] == LastBefore(words, i, words[i])
  }

  /** The table holds, for every word seen so far, its last occurrence. */
  ghost predicate TableUpTo(words: seq<string>, items: map<string, Word>, n: nat)
    requires n <= |words|
  {
    forall s: string {:trigger s in items} ::
      (s in items <==> LastBefore(words, n, s).Some?) &&
      (s in items ==> items[s].index == LastBefore(words, n, s).value)
  }

  lemma TableStep(words: seq<string>, items: map<string, Word>, n: nat)
    requires n < |words| && TableUpTo(words, items, n)
    ensures TableUpTo(words, items[words[n] := Word(n, words[n])], n + 1)
  {
  }

  /** One step of the hashing loop: enter word i and link it to the equal word it replaces. */
  method HashWord(words: seq<string>, i: nat, table: HashTable<Word, string>, chain: array<Option<nat>>)
    requires i < |words| == chain.Length && chain as object != table.vec as object
    requires table.Valid() && table.CanGrow() && table.emptySlots > 0
    requires table.sc.key == WordKey
    requires TableUpTo(words, table.Items(), i) && ChainsUpTo(words, chain[..], i) && chain[i] == None
    modifies table, table.vec, chain
    ensures table.Valid() && (table.vec == old(table.vec) || fresh(table.vec))
    ensures table.emptySlots + 1 >= old(table.emptySlots) && (table.size >= 16 ==> table.emptySlots > 0)
    ensures table.fill <= old(table.fill) + 1
    ensures table.size == old(table.size) ||
      (table.size == 2 * old(table.size) && table.fill >= old(table.size) - old(table.size) / 16)
    ensures TableUpTo(words, table.Items(), i + 1) && ChainsUpTo(words, chain[..], i + 1)
    ensures forall j :: 0 <= j < |words| && j != i ==> chain[j] == old(chain[j])
  {
    TableStep(words, table.Items(), i);
    ghost var items := table.Items();
    assert words[i] in items ==> items[words[i]].index == LastBefore(words, i, words[i]).value;
    var replaced := table.Insert(Word(i, words[i]));
    if replaced.Some? {
      chain[i] := Some(replaced.value.index);
    }
  }

  function WordKey(w: Word): string {
    w.str
  }

  /** The hashing part of func_filter_filterout. The table is larger than the number of
      words, so it never fills up even when it is too small to be rehashed. */
  method HashWords(words: seq<string>, hash: string -> nat, chain: array<Option<nat>>)
    returns (table: HashTable<Word, string>)
    requires 0 < |words| < MAX_ITEMS && chain.Length == |words|
    requires forall i :: 0 <= i < |words| ==> chain[i] == None
    modifies chain
    ensures fresh(table) && fresh(table.vec) && table.Valid() && table.emptySlots > 0
    ensures TableUpTo(words, table.Items(), |words|) && ChainsUpTo(words, chain[..], |words|)
  {
    table := new HashTable<Word, string>(Scheme(WordKey, hash, _ => 0), |words|);
    for i := 0 to |words|
      invariant fresh(table) && fresh(table.vec) && table.Valid() && table.sc.key == WordKey
      invariant table.fill <= i && table.size > |words|
      invariant table.emptySlots > 0 && (table.size < 16 ==> table.emptySlots + i >= table.size)
      invariant TableUpTo(words, table.Items(), i) && ChainsUpTo(words, chain[..], i)
      invariant forall j :: i <= j < |words| ==> chain[j] == None
    {
      table.FewItemsCanGrow();
      HashWord(words, i, table, chain);
    }
  }

  /** The words equal to s are marked by following the chain from the table entry. */
  method MarkChain(words: seq<string>, s: string, first: Option<nat>, chain: array<Option<nat>>, matched: array<bool>)
    requires chain.Length == |words| == matched.Length && chain as object != matched as object
    requires ChainsUpTo(words, chain[..], |words|) && first == LastBefore(words, |words|, s)
    modifies matched
    ensures forall i :: 0 <= i < |words| ==> matched[i] == (old(matched[i]) || words[i] == s)
  {
    var wp := first;
    ghost var n: nat := |words|;
    while wp.Some?
      invariant n <= |words| && wp == LastBefore(words, n, s)
      invariant forall i :: 0 <= i < n ==> matched[i] == old(matched[i])
      invariant forall i :: n <= i < |words| ==> matched[i] == (old(matched[i]) || words[i] == s)
      decreases n
    {
      ChainSkipsNothing(words, n, s);
      assert chain[..][wp.value] == chain[wp.value];
      matched[wp.value] := true;
      n := wp.value;
      wp := chain[wp.value];
    }
  }

  /** One round of the loop over the patterns. The table is null when hashing is not used. */
  method MarkPattern(p: Pattern, words: seq<string>, table: HashTable?<Word, string>,
                     chain: array<Option<nat>>, matched: array<bool>)
    requires chain.Length == |words| == matched.Length && chain as object != matched as object
    requires table != null ==> table.Valid() && table.emptySlots > 0 && TableUpTo(words, table.Items(), |words|)
    requires table != null ==> ChainsUpTo(words, chain[..], |words|)
    modifies matched
    ensures forall i :: 0 <= i < |words| ==> matched[i] == (old(matched[i]) || Matches(p, words[i]))
  {
    match p {
      case Percent(prefix, suffix) =>
        for i := 0 to |words|
          invariant forall j :: 0 <= j < i ==> matched[j] == (old(matched[j]) || Matches(p, words[j]))
          invariant forall j :: i <= j < |words| ==> matched[j] == old(matched[j])
        {
          matched[i] := matched[i] || PatternMatches(prefix, suffix, words[i]);
        }
      case Literal(s) =>
        if table != null {
          var wp := table.FindItem(s);
          MarkChain(words, s, if wp.Some? then Some(wp.value.index) else None, chain, matched);
        } else {
          for i := 0 to |words|
            invariant forall j :: 0 <= j < i ==> matched[j] == (old(matched[j]) || Matches(p, words[j]))
            invariant forall j :: i <= j < |words| ==> matched[j] == old(matched[j])
          {
            matched[i] := matched[i] || (|words[i]| == |s| && s == words[i]);
          }
        }
    }
  }

  /** The output loop: the words whose mark is the wanted one. */
  method OutputWords(patterns: seq<Pattern>, words: seq<string>, isFilter: bool, matched: array<bool>)
    returns (o: string)
    requires matched.Length == |words|
    requires forall i :: 0 <= i < |words| ==> matched[i] == MatchesAny(patterns, words[i])
    ensures o == Joined(Selected(patterns, words, isFilter))
  {
    o := "";
    var doneany := false;
    for i := 0 to |words|
      invariant o == Spaced(Selected(patterns, words[..i], isFilter))
      invariant doneany <==> Selected(patterns, words[..i], isFilter) != []
    {
      assert words[..i + 1][..i] == words[..i];
      if (if isFilter then matched[i] else !matched[i]) {
        var before := Selected(patterns, words[..i], isFilter);
        assert (before + [words[i]])[..|before|] == before;
        o := o + words[i];
        o := o + " ";
        doneany := true;
      }
    }
    assert words[..|words|] == words;
    if doneany {
      o := o[..|o| - 1];
    }
  }

  /** $(filter) or $(filter-out) of a list of words, with the output it appends. */
  method FilterWords(patterns: seq<Pattern>, words: seq<string>, isFilter: bool, hash: string -> nat)
    returns (o: string)
    requires |words| < MAX_ITEMS
    ensures o == Joined(Selected(patterns, words, isFilter))
  {
    if |words| == 0 { return ""; }
    var matched := new bool[|words|](_ => false);
    var chain := new Option<nat>[|words|](_ => None);
    var literals := Literals(patterns);
    var hashing := literals > 1 && literals * |words| >= 10;
    var table: HashTable?<Word, string> := null;
    if hashing {
      table := HashWords(words, hash, chain);
    }
    MarkAll(patterns, words, table, chain, matched);
    o := OutputWords(patterns, words, isFilter, matched);
  }

  /** The loop over the patterns. */
  method MarkAll(patterns: seq<Pattern>, words: seq<string>, table: HashTable?<Word, string>,
                 chain: array<Option<nat>>, matched: array<bool>)
    requires chain.Length == |words| == matched.Length && chain as object != matched as object
    requires table != null ==> table.Valid() && table.emptySlots > 0 && TableUpTo(words, table.Items(), |words|)
    requires table != null ==> ChainsUpTo(words, chain[..], |words|) && table.vec as object != matched as object
    requires forall i :: 0 <= i < |words| ==> !matched[i]
    modifies matched
    ensures forall i :: 0 <= i < |words| ==> matched[i] == MatchesAny(patterns, words[i])
  {
    for p := 0 to |patterns|
      invariant table != null ==> table.Valid() && table.Items() == old(table.Items())
      invariant chain[..] == old(chain[..])
      invariant forall i :: 0 <= i < |words| ==> matched[i] == MatchesAny(patterns[..p], words[i])
    {
      assert patterns[..p + 1] == patterns[..p] + [patterns[p]];
      MarkPattern(patterns[p], words, table, chain, matched);
    }
    assert patterns[..|patterns|] == patterns;
  }

  // ----- the examples of the manual -----

  /** Words of which the first ones are selected, and the last one is not. */
  lemma AllButLast(patterns: seq<Pattern>, a: string, b: string, c: string, d: string)
    requires MatchesAny(patterns, a) && MatchesAny(patterns, b) && MatchesAny(patterns, c)
    requires !MatchesAny(patterns, d)
    ensures Selected(patterns, [a] + [b] + [c] + [d], true) == [a] + [b] + [c]
  {
    SelectedFromBoth(patterns, [a] + [b] + [c], [d], true);
    SelectedFromBoth(patterns, [a] + [b], [c], true);
    SelectedFromBoth(patterns, [a], [b], true);
    SelectedOne(patterns, a, true);
    SelectedOne(patterns, b, true);
    SelectedOne(patterns, c, true);
    SelectedOne(patterns, d, true);
  }

  lemma JoinedThree(a: string, b: string, c: string)
    ensures Joined([a] + [b] + [c]) == a + " " + b + " " + c
  {
    var words := [a] + [b] + [c];
    assert words[..2] == [a] + [b] && ([a] + [b])[..1] == [a] && [a][..0] == [];
    assert Spaced([a]) == "" + a + " " && "" + a == a;
  }

  lemma EndsIn(suffix: string, word: string)
    requires |suffix| == 2 <= |word|
    ensures PatternMatches("", suffix, word)
      <==> word[|word| - 2] == suffix[0] && word[|word| - 1] == suffix[1]
  {
    var end := word[|word| - 2..];
    assert |end| == 2 && end[0] == word[|word| - 2] && end[1] == word[|word| - 1];
    assert word[..0] == "";
  }

  /** $(filter %.c %.s,foo.c bar.c baz.s ugh.h) */
  method FilterSources(hash: string -> nat) returns (o: string)
    ensures o == "foo.c" + " " + "bar.c" + " " + "baz.s"
  {
    var patterns := [Percent("", ".c"), Percent("", ".s")];
    SourcesMatch(patterns);
    AllButLast(patterns, "foo.c", "bar.c", "baz.s", "ugh.h");
    JoinedThree("foo.c", "bar.c", "baz.s");
    o := FilterWords(patterns, ["foo.c"] + ["bar.c"] + ["baz.s"] + ["ugh.h"], true, hash);
  }

  lemma SourcesMatch(patterns: seq<Pattern>)
    requires patterns == [Percent("", ".c"), Percent("", ".s")]
    ensures MatchesAny(patterns, "foo.c") && MatchesAny(patterns, "bar.c") && MatchesAny(patterns, "baz.s")
    ensures !MatchesAny(patterns, "ugh.h")
  {
    assert patterns[0] in patterns && patterns[1] in patterns;
    EndsIn(".c", "foo.c");
    EndsIn(".c", "bar.c");
    EndsIn(".s", "baz.s");
    EndsIn(".c", "ugh.h");
    EndsIn(".s", "ugh.h");
    assert Matches(patterns[0], "foo.c") && Matches(patterns[0], "bar.c") && Matches(patterns[1], "baz.s");
  }
}
