/** MAKEFLAGS: words quoted for the environment are split into the same words again. */
module EnvironmentSwitches {
  import opened Prelude

  // ----- quoting -----

  /** A dollar sign is doubled, and a blank or backslash gets a backslash. */
  function Quoted(s: string): string {
    if s == "" then "" else QuotedChar(s[0]) + Quoted(s[1..])
  }

  function QuotedChar(c: char): string {
    if c == '$' then "$$" else if IsBlank(c) || c == '\\' then ['\\', c] else [c]
  }

  method QuoteChar(buffer: array<char>, at: nat, c: char) returns (end: nat)
    requires at + 2 <= buffer.Length
    modifies buffer
    ensures at < end <= at + 2 && buffer[..end] == old(buffer[..at]) + QuotedChar(c)
  {
    end := at;
    if c == '$' {
      buffer[end] := '$';
      end := end + 1;
    } else if IsBlank(c) || c == '\\' {
      buffer[end] := '\\';
      end := end + 1;
    }
    buffer[end] := c;
    end := end + 1;
  }

  /** quote_for_env. The room needed is at most twice the length. */
  method QuoteForEnv(buffer: array<char>, at: nat, s: string) returns (end: nat)
    requires at + 2 * |s| <= buffer.Length
    modifies buffer
    ensures end <= at + 2 * |s| && buffer[..end] == old(buffer[..at]) + Quoted(s)
  {
    end := at;
    ghost var before := buffer[..at];
    assert before + "" == before;
    for i := 0 to |s|
      invariant at <= end <= at + 2 * i
      invariant buffer[..end] == before + Quoted(s[..i])
    {
      end := QuoteChar(buffer, end, s[i]);
      Regroup(before, Quoted(s[..i]), QuotedChar(s[i]));
      QuotedOneMore(s, i);
    }
    TakeAll(s);
  }

  lemma {:induction false} QuotedBoth(a: string, b: string)
    ensures Quoted(a + b) == Quoted(a) + Quoted(b)
  {
    if a == "" {
      assert a + b == b;
    } else {
      assert (a + b)[1..] == a[1..] + b;
      QuotedBoth(a[1..], b);
    }
  }

  lemma QuotedOneMore(s: string, i: nat)
    requires i < |s|
    ensures Quoted(s[..i + 1]) == Quoted(s[..i]) + QuotedChar(s[i])
  {
    assert s[..i + 1] == s[..i] + [s[i]];
    QuotedBoth(s[..i], [s[i]]);
    assert Quoted([s[i]]) == QuotedChar(s[i]) + Quoted("");
  }

  /** The words quoted, with single spaces between them. */
  function JoinedQuoted(words: seq<string>): string {
    if words == [] then ""
    else if |words| == 1 then Quoted(words[0])
    else Quoted(words[0]) + " " + JoinedQuoted(words[1..])
  }

  // ----- expansion -----

  /** Variable expansion of a value in which dollar signs come only in pairs. */
  function Undoubled(s: string): string {
    if s == "" then ""
    else if |s| > 1 && s[0] == '$' && s[1] == '$' then "$" + Undoubled(s[2..])
    else [s[0]] + Undoubled(s[1..])
  }

  /** A word with its blanks and backslashes escaped. */
  function Escaped(s: string): string {
    if s == "" then "" else EscapedChar(s[0]) + Escaped(s[1..])
  }

  function EscapedChar(c: char): string {
    if IsBlank(c) || c == '\\' then ['\\', c] else [c]
  }

  function Plain(words: seq<string>): string {
    if words == [] then ""
    else if |words| == 1 then Escaped(words[0])
    else Escaped(words[0]) + " " + Plain(words[1..])
  }

  lemma CharUndoubles(c: char, tail: string)
    ensures Undoubled(QuotedChar(c) + tail) == EscapedChar(c) + Undoubled(tail)
  {
    if c == '$' {
      assert ("$$" + tail)[2..] == tail;
    } else if IsBlank(c) || c == '\\' {
      PlainCharUndoubles(c, tail);
      PlainCharUndoubles('\\', [c] + tail);
      Regroup(['\\'], [c], tail);
      Regroup(['\\'], [c], Undoubled(tail));
    } else {
      PlainCharUndoubles(c, tail);
    }
  }

  lemma PlainCharUndoubles(c: char, tail: string)
    requires c != '$'
    ensures Undoubled([c] + tail) == [c] + Undoubled(tail)
  {
    assert ([c] + tail)[1..] == tail;
  }

  lemma {:induction false} QuotedUndoubles(s: string, rest: string)
    ensures Undoubled(Quoted(s) + rest) == Escaped(s) + Undoubled(rest)
  {
    if s == "" {
      assert "" + rest == rest;
    } else {
      QuotedUndoubles(s[1..], rest);
      CharUndoubles(s[0], Quoted(s[1..]) + rest);
      Regroup(QuotedChar(s[0]), Quoted(s[1..]), rest);
      Regroup(EscapedChar(s[0]), Escaped(s[1..]), Undoubled(rest));
    }
  }

  /** What the value of the variable is after expansion. */
  lemma {:induction false} JoinedUndoubles(words: seq<string>)
    ensures Undoubled(JoinedQuoted(words)) == Plain(words)
  {
    if |words| == 1 {
      QuotedUndoubles(words[0], "");
      assert Quoted(words[0]) + "" == Quoted(words[0]) && Escaped(words[0]) + "" == Escaped(words[0]);
    } else if words != [] {
      JoinedUndoubles(words[1..]);
      var tail := JoinedQuoted(words[1..]);
      Regroup(Quoted(words[0]), " ", tail);
      QuotedUndoubles(words[0], " " + tail);
      assert (" " + tail)[1..] == tail;
      Regroup(Escaped(words[0]), " ", Plain(words[1..]));
    }
  }

  // ----- splitting -----

  function BlanksEnd(v: string, i: nat): (j: nat)
    requires i <= |v|
    ensures i <= j <= |v| && (j < |v| ==> !IsBlank(v[j]))
    decreases |v| - i
  {
    if i < |v| && IsBlank(v[i]) then BlanksEnd(v, i + 1) else i
  }

  function SpacesEnd(v: string, i: nat): (j: nat)
    requires i <= |v|
    ensures i <= j <= |v| && (j < |v| ==> !IsSpace(v[j]))
    decreases |v| - i
  {
    if i < |v| && IsSpace(v[i]) then SpacesEnd(v, i + 1) else i
  }

  /** The words from position i on, when part of a word has been read. */
  function Split(v: string, i: nat, word: string): seq<string>
    requires i <= |v|
    decreases |v| - i
  {
    if i == |v| then [word]
    else if v[i] == '\\' && i + 1 < |v| then Split(v, i + 2, word + [v[i + 1]])
    else if IsBlank(v[i]) then [word] + Split(v, BlanksEnd(v, i + 1), "")
    else Split(v, i + 1, word + [v[i]])
  }

  /** The first word gets a dash unless it has one or defines a variable. */
  function WithDash(words: seq<string>): seq<string> {
    if words == [] || (words[0] != "" && words[0][0] == '-') || '=' in words[0] then words
    else ["-" + words[0]] + words[1..]
  }

  function Decoded(v: string): seq<string> {
    var i := SpacesEnd(v, 0);
    if i == |v| then [] else WithDash(Split(v, i, ""))
  }

  // ----- the round trip -----

  /** The words that come back: empty ones are lost, unless last. */
  function Kept(words: seq<string>): seq<string> {
    if |words| <= 1 then words
    else if words[0] == "" then Kept(words[1..]) else [words[0]] + Kept(words[1..])
  }

  lemma EscapedCharReads(v: string, i: nat, c: char, rest: string, word: string) returns (i': nat)
    requires i <= |v| && v[i..] == EscapedChar(c) + rest
    ensures i < i' <= |v| && v[i'..] == rest
    ensures Split(v, i, word) == Split(v, i', word + [c])
  {
    i' := i + |EscapedChar(c)|;
    SuffixParts(v, i, EscapedChar(c), rest);
  }

  lemma OneMoreRead(word: string, s: string)
    requires s != ""
    ensures word + s == (word + [s[0]]) + s[1..]
  {
    Regroup(word, [s[0]], s[1..]);
    assert [s[0]] + s[1..] == s;
  }

  /** One character of an escaped word is read. */
  lemma OneCharReads(v: string, i: nat, s: string, rest: string, word: string) returns (i': nat)
    requires i <= |v| && s != "" && v[i..] == Escaped(s) + rest
    ensures i < i' <= |v| && v[i'..] == Escaped(s[1..]) + rest
    ensures Split(v, i, word) == Split(v, i', word + [s[0]])
    ensures word + s == (word + [s[0]]) + s[1..]
  {
    Regroup(EscapedChar(s[0]), Escaped(s[1..]), rest);
    i' := EscapedCharReads(v, i, s[0], Escaped(s[1..]) + rest, word);
    OneMoreRead(word, s);
  }

  /** Reading an escaped word at the end gives the word. */
  lemma {:induction false} LastWordReads(v: string, i: nat, s: string, word: string)
    requires i <= |v| && v[i..] == Escaped(s)
    ensures Split(v, i, word) == [word + s]
    decreases |s|
  {
    if s == "" {
      assert word + s == word;
    } else {
      assert Escaped(s) + "" == Escaped(s) && Escaped(s[1..]) + "" == Escaped(s[1..]);
      var i' := OneCharReads(v, i, s, "", word);
      LastWordReads(v, i', s[1..], word + [s[0]]);
    }
  }

  /** Reading an escaped word up to a blank gives the word, and the rest is read from behind
      the blank. */
  lemma {:induction false} WordReads(v: string, i: nat, s: string, rest: string, word: string) returns (next: nat)
    requires i <= |v| && v[i..] == Escaped(s) + (" " + rest)
    ensures i < next <= |v| && v[next..] == rest
    ensures Split(v, i, word) == [word + s] + Split(v, BlanksEnd(v, next), "")
    ensures s == "" ==> BlanksEnd(v, i) == BlanksEnd(v, next)
    decreases |s|
  {
    if s == "" {
      assert "" + (" " + rest) == " " + rest;
      next := AfterBlank(v, i, word, rest);
      assert word + s == word;
    } else {
      var i' := OneCharReads(v, i, s, " " + rest, word);
      next := WordReads(v, i', s[1..], rest, word + [s[0]]);
    }
  }

  lemma EscapedBegins(s: string)
    requires s != ""
    ensures Escaped(s) != "" && !IsBlank(Escaped(s)[0])
    ensures IsSpace(Escaped(s)[0]) ==> IsSpace(s[0]) && !IsBlank(s[0])
  {
  }

  /** A blank ends the word. */
  lemma AfterBlank(v: string, i: nat, s: string, rest: string) returns (next: nat)
    requires i <= |v| && v[i..] == " " + rest
    ensures i < next <= |v| && v[next..] == rest && BlanksEnd(v, i) == BlanksEnd(v, next)
    ensures Split(v, i, s) == [s] + Split(v, BlanksEnd(v, next), "")
  {
    SuffixParts(v, i, " ", rest);
    next := i + 1;
  }

  /** No blank is skipped before a word. */
  lemma WordBegins(v: string, i: nat, s: string, rest: string)
    requires i <= |v| && v[i..] == Escaped(s) + rest && s != ""
    ensures BlanksEnd(v, i) == i
  {
    EscapedBegins(s);
    SuffixParts(v, i, Escaped(s), rest);
    assert v[i] == Escaped(s)[0];
  }

  /** From a place where a word may begin, the words are read that are kept. */
  lemma {:induction false} PlainSplits(v: string, i: nat, words: seq<string>)
    requires i <= |v| && words != [] && v[i..] == Plain(words)
    ensures Split(v, BlanksEnd(v, i), "") == Kept(words)
    decreases |words|
  {
    var s := words[0];
    assert "" + s == s;
    if |words| == 1 {
      assert Escaped(s) + "" == Escaped(s);
      if s != "" { WordBegins(v, i, s, ""); }
      LastWordReads(v, i, s, "");
      assert words == [s];
    } else {
      Regroup(Escaped(s), " ", Plain(words[1..]));
      if s != "" { WordBegins(v, i, s, " " + Plain(words[1..])); }
      var next := WordReads(v, i, s, Plain(words[1..]), "");
      PlainSplits(v, next, words[1..]);
    }
  }

  /** Line breaks are white space, but quoting does not escape them. */
  predicate IsBreak(c: char) {
    IsSpace(c) && !IsBlank(c)
  }

  /** The words left when white space in front is skipped: empty words, and line breaks. */
  function Trimmed(words: seq<string>): seq<string>
    decreases |words|, if words == [] then 0 else |words[0]|
  {
    if words == [] then []
    else if words[0] == "" then Trimmed(words[1..])
    else if IsBreak(words[0][0]) then Trimmed([words[0][1..]] + words[1..])
    else words
  }

  lemma PlainParts(words: seq<string>) returns (rest: string)
    requires words != []
    ensures Plain(words) == Escaped(words[0]) + rest
    ensures if |words| == 1 then rest == "" else rest == " " + Plain(words[1..])
    ensures forall s :: Plain([s] + words[1..]) == Escaped(s) + rest
  {
    rest := if |words| == 1 then "" else " " + Plain(words[1..]);
    assert Plain(words) == Escaped(words[0]) + rest by {
      if |words| > 1 { Regroup(Escaped(words[0]), " ", Plain(words[1..])); }
    }
    forall s
      ensures Plain([s] + words[1..]) == Escaped(s) + rest
    {
      var other := [s] + words[1..];
      assert other[1..] == words[1..];
      if |words| > 1 { Regroup(Escaped(s), " ", Plain(words[1..])); }
    }
  }

  /** Skipping white space leads to the trimmed words. */
  lemma {:induction false} TrimmedReads(v: string, i: nat, words: seq<string>)
    requires i <= |v| && v[i..] == Plain(words)
    ensures if Trimmed(words) == [] then SpacesEnd(v, i) == |v|
            else SpacesEnd(v, i) < |v| && Split(v, SpacesEnd(v, i), "") == Kept(Trimmed(words))
    decreases |words|, if words == [] then 0 else |words[0]|
  {
    if words == [] {
      assert SpacesEnd(v, |v|) == |v|;
    } else {
      var s := words[0];
      var rest := PlainParts(words);
      if s == "" {
        var next := EmptyReads(v, i, words, rest);
        TrimmedReads(v, next, words[1..]);
      } else if IsBreak(s[0]) {
        BreakReads(v, i, s, rest);
        TrimmedReads(v, i + 1, [s[1..]] + words[1..]);
      } else {
        WordComesFirst(v, i, s, rest);
        PlainSplits(v, i, words);
      }
    }
  }

  lemma EmptyReads(v: string, i: nat, words: seq<string>, rest: string) returns (next: nat)
    requires i <= |v| && words != [] && words[0] == "" && v[i..] == Escaped("") + rest
    requires if |words| == 1 then rest == "" else rest == " " + Plain(words[1..])
    ensures i <= next <= |v| && SpacesEnd(v, i) == SpacesEnd(v, next) && v[next..] == Plain(words[1..])
  {
    next := i;
    assert "" + rest == rest;
    if |words| > 1 {
      SuffixParts(v, i, " ", Plain(words[1..]));
      next := i + 1;
    }
  }

  lemma BreakReads(v: string, i: nat, s: string, rest: string)
    requires i <= |v| && s != "" && IsBreak(s[0]) && v[i..] == Escaped(s) + rest
    ensures i < |v| && SpacesEnd(v, i) == SpacesEnd(v, i + 1) && v[i + 1..] == Escaped(s[1..]) + rest
  {
    Regroup([s[0]], Escaped(s[1..]), rest);
    SuffixParts(v, i, [s[0]], Escaped(s[1..]) + rest);
  }

  /** No white space is skipped before a word. */
  lemma WordComesFirst(v: string, i: nat, s: string, rest: string)
    requires i <= |v| && s != "" && !IsBreak(s[0]) && v[i..] == Escaped(s) + rest
    ensures i < |v| && SpacesEnd(v, i) == i && BlanksEnd(v, i) == i
  {
    EscapedBegins(s);
    SuffixParts(v, i, Escaped(s), rest);
    assert v[i] == Escaped(s)[0];
  }

  /** Words that were quoted, joined, expanded and split are the words without white space in
      front that are kept, with a dash before the first. */
  lemma RoundTrip(words: seq<string>)
    ensures Decoded(Undoubled(JoinedQuoted(words))) == WithDash(Kept(Trimmed(words)))
  {
    var v := Plain(words);
    JoinedUndoubles(words);
    assert v[0..] == v;
    TrimmedReads(v, 0, words);
  }

  /** The first word is not empty and does not begin with a line break. */
  predicate BeginsWell(words: seq<string>) {
    words != [] ==> words[0] != "" && !IsBreak(words[0][0])
  }

  /** Trimming leaves fewer words or a shorter first word, unless it leaves all. */
  lemma {:induction false} TrimmedIsLess(words: seq<string>)
    ensures BeginsWell(words) ==> Trimmed(words) == words
    ensures |Trimmed(words)| <= |words|
    ensures Trimmed(words) != [] ==> Trimmed(words)[0] != ""
    ensures !BeginsWell(words) && |Trimmed(words)| == |words| ==>
      words[0] != "" && IsBreak(words[0][0]) && |Trimmed(words)[0]| < |words[0]|
    decreases |words|, if words == [] then 0 else |words[0]|
  {
    if words != [] {
      if words[0] == "" {
        TrimmedIsLess(words[1..]);
      } else if IsBreak(words[0][0]) {
        TrimmedIsLess([words[0][1..]] + words[1..]);
      }
    }
  }

  lemma DashKeepsLength(words: seq<string>)
    ensures |WithDash(words)| == |words|
    ensures words != [] ==> WithDash(words)[0] == words[0] || WithDash(words)[0] == "-" + words[0]
    ensures words != [] ==> WithDash(words)[1..] == words[1..]
  {
  }

  /** The words come back, with a dash before the first, exactly when the first is not empty and
      does not begin with a line break, and no word before the last is empty. */
  lemma RoundTripExactlyWhen(words: seq<string>)
    ensures Decoded(Undoubled(JoinedQuoted(words))) == WithDash(words)
       <==> BeginsWell(words) && forall k: nat :: k < |words| - 1 ==> words[k] != ""
  {
    var trimmed := Trimmed(words);
    RoundTrip(words);
    TrimmedIsLess(words);
    KeptExactly(words);
    KeptExactly(trimmed);
    DashKeepsLength(words);
    DashKeepsLength(Kept(trimmed));
    if BeginsWell(words) {
      if words != [] { assert Kept(words)[0] == words[0]; }
      if WithDash(Kept(words)) == WithDash(words) { SameBehindDash(words); }
    } else if |Kept(trimmed)| == |words| {
      assert Kept(trimmed)[0] == trimmed[0];
      assert ("-" + trimmed[0])[0] == '-' && ("-" + trimmed[0])[1..] == trimmed[0];
      assert ("-" + words[0])[1..] == words[0];
    }
  }

  lemma SameBehindDash(words: seq<string>)
    requires words != [] ==> words[0] != ""
    requires WithDash(Kept(words)) == WithDash(words)
    ensures Kept(words) == words
  {
    DashKeepsLength(words);
    DashKeepsLength(Kept(words));
    if words != [] {
      assert words == [words[0]] + words[1..];
      assert Kept(words) == [Kept(words)[0]] + Kept(words)[1..];
    }
  }

  /** All words are kept exactly when none but the last is empty. */
  lemma {:induction false} KeptExactly(words: seq<string>)
    ensures |Kept(words)| <= |words|
    ensures words != [] ==> Kept(words) != []
    ensures Kept(words) == words <==> forall k: nat :: k < |words| - 1 ==> words[k] != ""
  {
    if |words| > 1 {
      KeptExactly(words[1..]);
      if words[0] != "" {
        assert forall k: nat :: 0 < k < |words| - 1 ==> words[k] == words[1..][k - 1];
        assert words == [words[0]] + words[1..];
        assert Kept(words)[1..] == Kept(words[1..]);
      }
    }
  }

  // ----- decode_env_switches -----

  /** Split the value in place in a buffer, and give the first word a dash. */
  method DecodeEnvSwitches(value: string) returns (args: seq<string>)
    ensures args == Decoded(value)
  {
    var v := 0;
    while v < |value| && IsSpace(value[v])
      invariant v <= |value| && SpacesEnd(value, 0) == SpacesEnd(value, v)
    {
      v := v + 1;
    }
    if v == |value| { return []; }
    args := SplitValue(value, v);
    if !(args[0] != "" && args[0][0] == '-') && '=' !in args[0] {
      args := ["-" + args[0]] + args[1..];
    }
  }

  /** The copying loop. What is written fits a buffer of the length of the value and two. */
  method SplitValue(value: string, from: nat) returns (argv: seq<string>)
    requires from < |value|
    ensures argv == Split(value, from, "") && argv != []
  {
    var buffer := new char[1 + (|value| - from) + 1];
    var p, start, v := 1, 1, from;
    argv := [];
    assert buffer[start..p] == "";
    while v < |value|
      invariant from <= v <= |value| && 1 <= start <= p <= v - from + 1
      invariant argv + Split(value, v, buffer[start..p]) == Split(value, from, "")
      decreases |value| - v
    {
      ghost var word := buffer[start..p];
      if value[v] == '\\' && v + 1 < |value| {
        v := v + 1;
      } else if IsBlank(value[v]) {
        v := EndWord(value, v, argv, word, from);
        argv := argv + [buffer[start..p]];
        p := p + 1;
        start := p;
        assert buffer[start..p] == "";
        continue;
      }
      buffer[p] := value[v];
      p, v := p + 1, v + 1;
      assert buffer[start..p] == word + [value[v - 1]];
    }
    argv := argv + [buffer[start..p]];
  }

  /** Skip the blanks behind a word. */
  method EndWord(value: string, from: nat, ghost argv: seq<string>, ghost word: string, ghost begin: nat)
    returns (v: nat)
    requires begin <= from < |value| && IsBlank(value[from])
    requires argv + Split(value, from, word) == Split(value, begin, "")
    ensures from < v <= |value| && (argv + [word]) + Split(value, v, "") == Split(value, begin, "")
  {
    v := from + 1;
    while v < |value| && IsBlank(value[v])
      invariant from < v <= |value| && BlanksEnd(value, from + 1) == BlanksEnd(value, v)
    {
      v := v + 1;
    }
  }

  // ----- some words -----

  /** What is put before a character, if it needs something. */
  lemma QuotedOne(c: char)
    ensures Quoted([c]) == if c == '$' then "$$" else if c in " \t\\" then ['\\', c] else [c]
  {
    assert [c][1..] == "" && QuotedChar(c) + "" == QuotedChar(c);
  }

  /** Text without white space or backslash is a word, and a blank begins the next one. */
  lemma {:induction false} PlainTextSplits(v: string, i: nat, j: nat, word: string)
    requires i <= j <= |v| && forall k :: i <= k < j ==> !IsBlank(v[k]) && v[k] != '\\'
    ensures Split(v, i, word) == Split(v, j, word + v[i..j])
    decreases j - i
  {
    if i == j {
      assert word + v[i..j] == word;
    } else {
      assert (word + [v[i]]) + v[i + 1..j] == word + v[i..j];
      PlainTextSplits(v, i + 1, j, word + [v[i]]);
    }
  }

  /** The letters "kw" and a definition: the letters get a dash. */
  method DecodeLetters() returns (args: seq<string>)
    ensures args == ["-kw"] + ["A=b c"]
  {
    var v := "kw A=b\\ c";
    PlainTextSplits(v, 0, 2, "");
    PlainTextSplits(v, 3, 6, "");
    PlainTextSplits(v, 8, 9, "A=b ");
    assert v[0..2] == "kw" && v[3..6] == "A=b" && v[8..9] == "c";
    assert BlanksEnd(v, 3) == 3 && SpacesEnd(v, 0) == 0;
    assert "" + "kw" == "kw" && "" + "A=b" == "A=b" && "A=b" + [' '] == "A=b " && "A=b " + "c" == "A=b c";
    assert "-" + "kw" == "-kw" && '=' !in "kw";
    args := DecodeEnvSwitches(v);
  }
}
