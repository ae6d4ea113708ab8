/** What the characters of a text expand to, one kind of reference at a time. */
module ExpansionText {
  import opened Prelude
  import opened Expansion
  import EnvironmentSwitches

  /** What make expands a text to. */
  function ExpandText(defs: Definitions, expanding: set<string>, s: string): Result {
    Expand(defs, expanding, Pieces(s))
  }

  /** The text before a reference, its value, and the expansion of what follows. */
  function Then(value: Result, before: string, rest: Result): Result {
    if value.Ok? then Prepend(before + value.text, rest) else value
  }

  lemma {:induction false} FindsFirst(s: string, c: char, k: nat)
    requires k <= |s| && c !in s[..k] && (k < |s| ==> s[k] == c)
    ensures Find(s, c) == k
  {
    if k > 0 {
      assert s[..k] == [s[0]] + s[1..][..k - 1];
      FindsFirst(s[1..], c, k - 1);
    }
  }

  /** The text up to the first dollar sign, the reference there, and the rest. */
  lemma FirstReference(defs: Definitions, expanding: set<string>, before: string, tail: string, r: (Piece, string))
    requires '$' !in before && r == Reference(tail)
    ensures ExpandText(defs, expanding, before + ("$" + tail))
      == Then(ExpandPiece(defs, expanding, r.0), before, ExpandText(defs, expanding, r.1))
  {
    var s := before + ("$" + tail);
    assert s[..|before|] == before && s[|before| + 1..] == tail;
    FindsFirst(s, '$', |before|);
    NextPiece(defs, expanding, s, |before|, r);
  }

  lemma NoReference(defs: Definitions, expanding: set<string>, s: string)
    requires '$' !in s
    ensures ExpandText(defs, expanding, s) == Ok(s)
  {
    TakeAll(s);
    FindsFirst(s, '$', |s|);
    LastPiece(defs, expanding, s);
  }

  lemma ThenLater(value: Result, a: string, b: string, rest: Result)
    ensures Then(value, a + b, rest) == Prepend(a, Then(value, b, rest))
  {
    if value.Ok? {
      Regroup(a, b, value.text);
      PrependTwice(a, b + value.text, rest);
    }
  }

  /** Text without a dollar sign stays as it is. */
  lemma TextInFront(defs: Definitions, expanding: set<string>, a: string, b: string)
    requires '$' !in a
    ensures ExpandText(defs, expanding, a + b) == Prepend(a, ExpandText(defs, expanding, b))
  {
    var k := Find(b, '$');
    if k == |b| {
      TakeAll(b);
      NoReference(defs, expanding, b);
      NoReference(defs, expanding, a + b);
    } else {
      var before, tail := b[..k], b[k + 1..];
      assert b == before + ("$" + tail);
      Regroup(a, before, "$" + tail);
      var r := Reference(tail);
      FirstReference(defs, expanding, before, tail, r);
      FirstReference(defs, expanding, a + before, tail, r);
      ThenLater(ExpandPiece(defs, expanding, r.0), a, before, ExpandText(defs, expanding, r.1));
    }
  }

  /** A dollar sign in front begins a reference. */
  lemma DollarInFront(defs: Definitions, expanding: set<string>, s: string, r: (Piece, string))
    requires r == Reference(s)
    ensures ExpandText(defs, expanding, "$" + s)
      == Then(ExpandPiece(defs, expanding, r.0), "", ExpandText(defs, expanding, r.1))
  {
    FirstReference(defs, expanding, "", s, r);
    assert "" + ("$" + s) == "$" + s;
  }

  /** Two dollar signs stand for one. */
  lemma TwoDollars(defs: Definitions, expanding: set<string>, rest: string)
    ensures ExpandText(defs, expanding, "$$" + rest) == Prepend("$", ExpandText(defs, expanding, rest))
  {
    var s := "$" + rest;
    assert "$" + s == "$$" + rest && s[1..] == rest;
    DollarInFront(defs, expanding, s, (Text("$"), rest));
  }

  /** A dollar sign at the end stands for itself. */
  lemma LastDollar(defs: Definitions, expanding: set<string>)
    ensures ExpandText(defs, expanding, "$") == Ok("$")
  {
    DollarInFront(defs, expanding, "", (Text("$"), ""));
    LastPiece(defs, expanding, "");
    assert "$" + "" == "$";
  }

  predicate Opens(open: char, close: char) {
    (open == '(' && close == ')') || (open == '{' && close == '}')
  }

  /** A name in parentheses or braces stands for what its variable does. */
  lemma NameInParentheses(defs: Definitions, expanding: set<string>, open: char, close: char, name: string,
                          rest: string)
    requires Opens(open, close) && close !in name
    ensures ExpandText(defs, expanding, ['$', open] + name + [close] + rest)
      == Then(ExpandVariable(defs, expanding, name), "", ExpandText(defs, expanding, rest))
  {
    var s := [open] + name + [close] + rest;
    assert s[1..] == name + [close] + rest;
    assert s[1..][..|name|] == name && s[1..][|name| + 1..] == rest;
    FindsFirst(s[1..], close, |name|);
    assert "$" + s == ['$', open] + name + [close] + rest;
    DollarInFront(defs, expanding, s, (Ref(name), rest));
  }

  /** Without the closing character the expansion is fatal. */
  lemma NeverClosed(defs: Definitions, expanding: set<string>, open: char, close: char, tail: string)
    requires Opens(open, close) && close !in tail
    ensures ExpandText(defs, expanding, ['$', open] + tail) == Fatal(Unterminated)
  {
    var s := [open] + tail;
    assert s[1..] == tail;
    FindsFirst(tail, close, |tail|);
    assert "$" + s == ['$', open] + tail;
    DollarInFront(defs, expanding, s, (Open, ""));
  }

  /** Any other character is the name of a variable. */
  lemma NameOfOneCharacter(defs: Definitions, expanding: set<string>, c: char, rest: string)
    requires c != '$' && c != '(' && c != '{'
    ensures ExpandText(defs, expanding, ['$', c] + rest)
      == Then(ExpandVariable(defs, expanding, [c]), "", ExpandText(defs, expanding, rest))
  {
    var s := [c] + rest;
    assert s[1..] == rest && "$" + s == ['$', c] + rest;
    DollarInFront(defs, expanding, s, (Ref([c]), rest));
  }

  /** Text, a reference in parentheses or braces, and the rest are expanded one after the other. */
  lemma TextNameAndRest(defs: Definitions, expanding: set<string>, a: string, open: char, close: char,
                        name: string, rest: string)
    requires '$' !in a && Opens(open, close) && close !in name
    ensures ExpandText(defs, expanding, a + (['$', open] + name + [close] + rest))
      == Then(ExpandVariable(defs, expanding, name), a, ExpandText(defs, expanding, rest))
  {
    TextInFront(defs, expanding, a, ['$', open] + name + [close] + rest);
    NameInParentheses(defs, expanding, open, close, name, rest);
    ThenLater(ExpandVariable(defs, expanding, name), a, "", ExpandText(defs, expanding, rest));
    assert a + "" == a;
  }

  /** What a variable stands for: nothing if it is not defined, the value of a simple one as it
      is, the expansion of the value of a recursive one unless that is going on already. */
  lemma VariableStandsFor(vars: map<string, Variable>, expanding: set<string>, name: string)
    ensures name !in vars ==> ExpandVariable(DefinitionsOf(vars), expanding, name) == Ok("")
    ensures name in vars && !vars[name].recursive ==>
      ExpandVariable(DefinitionsOf(vars), expanding, name) == Ok(vars[name].value)
    ensures name in vars && vars[name].recursive && name !in expanding ==>
      ExpandVariable(DefinitionsOf(vars), expanding, name)
        == ExpandText(DefinitionsOf(vars), expanding + {name}, vars[name].value)
    ensures name in vars && vars[name].recursive && vars[name].value != "" && name in expanding ==>
      ExpandVariable(DefinitionsOf(vars), expanding, name) == Fatal(ReferencesItself(name))
  {
    LastPiece(DefinitionsOf(vars), expanding + {name}, "");
  }

  // ----- dollar signs in pairs -----

  /** Every dollar sign is followed by another one that belongs to it. */
  predicate InPairs(s: string) {
    if s == "" then true
    else if s[0] == '$' then |s| > 1 && s[1] == '$' && InPairs(s[2..])
    else InPairs(s[1..])
  }

  function Doubled(s: string): string {
    if s == "" then "" else (if s[0] == '$' then "$$" else [s[0]]) + Doubled(s[1..])
  }

  /** Where dollar signs come only in pairs, expansion makes one of each pair and uses no variable. */
  lemma {:induction false} PairsAreUndoubled(defs: Definitions, expanding: set<string>, s: string)
    requires InPairs(s)
    ensures ExpandText(defs, expanding, s) == Ok(EnvironmentSwitches.Undoubled(s))
  {
    if s == "" {
      LastPiece(defs, expanding, s);
    } else if s[0] == '$' {
      assert s == "$$" + s[2..];
      TwoDollars(defs, expanding, s[2..]);
      PairsAreUndoubled(defs, expanding, s[2..]);
    } else {
      assert s == [s[0]] + s[1..];
      TextInFront(defs, expanding, [s[0]], s[1..]);
      PairsAreUndoubled(defs, expanding, s[1..]);
    }
  }

  lemma {:induction false} DoubledComesInPairs(s: string)
    ensures InPairs(Doubled(s)) && EnvironmentSwitches.Undoubled(Doubled(s)) == s
  {
    if s != "" {
      DoubledComesInPairs(s[1..]);
      var first := if s[0] == '$' then "$$" else [s[0]];
      assert Doubled(s)[|first|..] == Doubled(s[1..]);
    }
  }

  /** A text with every dollar sign doubled expands to the text. */
  lemma DoublingIsUndone(defs: Definitions, expanding: set<string>, s: string)
    ensures ExpandText(defs, expanding, Doubled(s)) == Ok(s)
  {
    DoubledComesInPairs(s);
    PairsAreUndoubled(defs, expanding, Doubled(s));
  }

  // ----- MAKEFLAGS -----

  lemma {:induction false} QuotedInPairs(s: string, rest: string)
    requires InPairs(rest)
    ensures InPairs(EnvironmentSwitches.Quoted(s) + rest)
  {
    if s == "" {
      assert EnvironmentSwitches.Quoted(s) + rest == rest;
    } else {
      QuotedInPairs(s[1..], rest);
      var first, tail := EnvironmentSwitches.QuotedChar(s[0]), EnvironmentSwitches.Quoted(s[1..]) + rest;
      Regroup(first, EnvironmentSwitches.Quoted(s[1..]), rest);
      assert (first + tail)[|first|..] == tail;
      if |first| == 2 && first[0] != '$' {
        assert (first + tail)[1..][1..] == tail;
      }
    }
  }

  lemma {:induction false} JoinedInPairs(words: seq<string>)
    ensures InPairs(EnvironmentSwitches.JoinedQuoted(words))
  {
    if words != [] {
      var first := EnvironmentSwitches.Quoted(words[0]);
      if |words| == 1 {
        QuotedInPairs(words[0], "");
        assert first + "" == first;
      } else {
        JoinedInPairs(words[1..]);
        var tail := EnvironmentSwitches.JoinedQuoted(words[1..]);
        assert (" " + tail)[1..] == tail;
        QuotedInPairs(words[0], " " + tail);
        Regroup(first, " ", tail);
      }
    }
  }

  /** Switches quoted for MAKEFLAGS, expanded as make expands the variable, and split again are the
      words that come back. Whatever variables are defined, none is used. */
  lemma FlagsComeBack(defs: Definitions, expanding: set<string>, words: seq<string>)
    ensures ExpandText(defs, expanding, EnvironmentSwitches.JoinedQuoted(words)).Ok?
    ensures EnvironmentSwitches.Decoded(ExpandText(defs, expanding, EnvironmentSwitches.JoinedQuoted(words)).text)
      == EnvironmentSwitches.WithDash(EnvironmentSwitches.Kept(EnvironmentSwitches.Trimmed(words)))
  {
    JoinedInPairs(words);
    PairsAreUndoubled(defs, expanding, EnvironmentSwitches.JoinedQuoted(words));
    EnvironmentSwitches.RoundTrip(words);
  }

  // ----- examples -----

  function ReferenceTo(open: char, close: char, name: string): string {
    ['$', open] + name + [close]
  }

  /** A variable whose value is a reference to another one stands for what that stands for. */
  lemma StandsForOther(vars: map<string, Variable>, expanding: set<string>, name: string, open: char, close: char,
                       other: string)
    requires name in vars && name !in expanding && Opens(open, close) && close !in other
    requires vars[name] == Variable(ReferenceTo(open, close, other), true)
    ensures ExpandVariable(DefinitionsOf(vars), expanding, name)
      == ExpandVariable(DefinitionsOf(vars), expanding + {name}, other)
  {
    var defs, text := DefinitionsOf(vars), ReferenceTo(open, close, other);
    VariableStandsFor(vars, expanding, name);
    assert text + "" == text;
    NameInParentheses(defs, expanding + {name}, open, close, other, "");
    LastPiece(defs, expanding + {name}, "");
    if ExpandVariable(defs, expanding + {name}, other).Ok? {
      var value := ExpandVariable(defs, expanding + {name}, other).text;
      assert value + "" == value;
    }
  }

  /** A variable that refers to another one, and that to a third one. */
  predicate Nested(vars: map<string, Variable>, a: string, b: string, c: string, value: string) {
    && a != b && b != c && a != c && ')' !in b && '}' !in c && '$' !in value
    && a in vars && vars[a] == Variable(ReferenceTo('(', ')', b), true)
    && b in vars && vars[b] == Variable(ReferenceTo('{', '}', c), true)
    && c in vars && vars[c] == Variable(value, true)
  }

  lemma NestedValue(vars: map<string, Variable>, a: string, b: string, c: string, value: string)
    requires Nested(vars, a, b, c, value)
    ensures ExpandVariable(DefinitionsOf(vars), {}, a) == Ok(value)
  {
    StandsForOther(vars, {}, a, '(', ')', b);
    StandsForOther(vars, {} + {a}, b, '{', '}', c);
    VariableStandsFor(vars, {} + {a} + {b}, c);
    assert value + "" == value;
    TextInFront(DefinitionsOf(vars), {} + {a} + {b} + {c}, value, "");
    LastPiece(DefinitionsOf(vars), {} + {a} + {b} + {c}, "");
  }

  /** The value of a simple variable is taken as it is, dollar signs and all. */
  lemma SimpleAtEnd(vars: map<string, Variable>, p: char)
    requires p !in {'$', '(', '{'} && [p] in vars && !vars[[p]].recursive
    ensures ExpandText(DefinitionsOf(vars), {}, ['$', p]) == Ok(vars[[p]].value)
  {
    var simple := vars[[p]].value;
    VariableStandsFor(vars, {}, [p]);
    assert ['$', p] + "" == ['$', p];
    NameOfOneCharacter(DefinitionsOf(vars), {}, p, "");
    NoReference(DefinitionsOf(vars), {}, "");
    assert "" + simple + "" == simple;
  }

  lemma NestedAndSimple(vars: map<string, Variable>, a: string, b: string, c: string, value: string, p: char)
    requires Nested(vars, a, b, c, value) && ')' !in a
    requires p !in {'$', '(', '{'} && [p] in vars && !vars[[p]].recursive
    ensures ExpandText(DefinitionsOf(vars), {}, ReferenceTo('(', ')', a) + ['$', p])
      == Ok(value + vars[[p]].value)
  {
    NestedValue(vars, a, b, c, value);
    SimpleAtEnd(vars, p);
    NameInParentheses(DefinitionsOf(vars), {}, '(', ')', a, ['$', p]);
    assert "" + value == value;
  }

  /** A reference to a reference to a reference gives the last value; the simple value behind it
      is not looked at for references. */
  method ExpandNested(a: string, b: string, c: string, value: string, p: char, simple: string)
    returns (text: string, error: Option<Error>)
    requires a != b && b != c && a != c && ')' !in a && ')' !in b && '}' !in c && '$' !in value
    requires p !in {'$', '(', '{'} && [p] !in {a, b, c}
    ensures error == None && text == value + simple
  {
    var vars := map[
      a := Variable(ReferenceTo('(', ')', b), true), b := Variable(ReferenceTo('{', '}', c), true),
      c := Variable(value, true), [p] := Variable(simple, false)];
    NestedAndSimple(vars, a, b, c, value, p);
    var expander := new Expander(vars);
    text, error := expander.ExpandAside(ReferenceTo('(', ')', a) + ['$', p]);
  }
}
