/** Splitting a command line into arguments without a shell, or, when the line needs
    a shell, escaping it so that splitting it again gives back shell, flags and line. */
module CommandArgv {
  import opened Prelude

  function SkipBlanks(s: string): (t: string)
    ensures |t| <= |s| && (t != "" ==> !IsBlank(t[0]))
  {
    if s != "" && IsBlank(s[0]) then SkipBlanks(s[1..]) else s
  }

  lemma {:induction false} SkipsBlanks(s: string)
    ensures forall i :: 0 <= i < |s| - |SkipBlanks(s)| ==> IsBlank(s[i])
  {
    if s != "" && IsBlank(s[0]) {
      SkipsBlanks(s[1..]);
      assert forall i :: 0 < i < |s| ==> s[i] == s[1..][i - 1];
    }
  }

  lemma {:induction false} SkippedIsSuffix(s: string)
    ensures s[|s| - |SkipBlanks(s)|..] == SkipBlanks(s)
  {
    if s != "" && IsBlank(s[0]) { SkippedIsSuffix(s[1..]); }
  }

  /** The words between the blanks of a text, when cur has been read of the first. */
  function Words(cur: string, s: string): seq<string>
    decreases |s|
  {
    if s == "" then (if cur == "" then [] else [cur])
    else if IsBlank(s[0]) then (if cur == "" then [] else [cur]) + Words("", s[1..])
    else Words(cur + [s[0]], s[1..])
  }

  lemma {:induction false} WordsSkip(s: string)
    ensures Words("", SkipBlanks(s)) == Words("", s)
  {
    if s != "" && IsBlank(s[0]) {
      WordsSkip(s[1..]);
      assert [] + Words("", s[1..]) == Words("", s[1..]);
    }
  }

  lemma {:induction false} FirstWordGrows(cur: string, s: string)
    requires cur != ""
    ensures Words(cur, s) != [] && cur <= Words(cur, s)[0]
    decreases |s|
  {
    if s != "" && !IsBlank(s[0]) { FirstWordGrows(cur + [s[0]], s[1..]); }
  }

  lemma {:induction false} OneWord(cur: string, s: string)
    requires cur + s != "" && forall c :: c in s ==> !IsBlank(c)
    ensures Words(cur, s) == [cur + s]
    decreases |s|
  {
    if s == "" {
      assert cur + s == cur;
    } else {
      Regroup(cur, [s[0]], s[1..]);
      assert [s[0]] + s[1..] == s;
      OneWord(cur + [s[0]], s[1..]);
    }
  }

  /** Finished arguments, the text of the current one, and the flags of the loop. */
  datatype State = State(done: seq<string>, cur: string, instring: Option<char>,
                         wordHasEquals: bool, seenNonequals: bool, lastEmpty: bool)

  const START := State([], "", None, false, false, false)

  /** The fast path gives up, finds no argument, or returns them. `rest` is where *restp
      was left, the text from the newline that ends the command. */
  datatype Outcome =
    | Slow(rest: Option<string>)
    | Nothing(rest: Option<string>)
    | Argv(argv: seq<string>, rest: Option<string>)

  /** One round of the loop: the new state and how many characters it used, or the end. */
  datatype Round = Next(state: State, used: nat) | Stop(outcome: Outcome)

  predicate Continues(s: string) {
    |s| > 1 && s[0] == '\\' && s[1] == '\n'
  }

  function Backslash(s: string, st: State): (r: Round)
    requires s != "" && s[0] == '\\'
    ensures r.Next? ==> 1 <= r.used <= |s|
  {
    if Continues(s) then
      Next(st, if st.cur == "" then |s| - |SkipBlanks(s[2..])| else 2)
    else if |s| > 1 then
      Next(st.(cur := st.cur + [s[1]]), 2)
    else
      Next(st, 1)
  }

  method SkipBlanksFrom(line: string, p: nat) returns (q: nat)
    requires p <= |line|
    ensures p <= q <= |line| && line[q..] == SkipBlanks(line[p..])
  {
    q := p;
    while q < |line| && IsBlank(line[q])
      invariant p <= q <= |line| && SkipBlanks(line[q..]) == SkipBlanks(line[p..])
    {
      assert line[q..][1..] == line[q + 1..];
      q := q + 1;
    }
  }

  /** The characters special to the shell, the commands built into it, and the shell to
      imitate. */
  datatype Syntax = Syntax(shChars: string, shCmds: seq<string>, defaultShell: string) {
    /** What happens at the end of the command. */
    function Finish(st: State, rest: Option<string>): Outcome {
      var args := if st.cur != "" || st.lastEmpty then st.done + [st.cur] else st.done;
      if st.instring.Some? then Slow(rest)
      else if |args| == 1 && args[0] in shCmds then Slow(rest)
      else if args == [] then Nothing(rest)
      else Argv(args, rest)
    }

    function InString(s: string, restp: bool, st: State): (r: Round)
      requires s != "" && st.instring.Some?
      ensures r.Next? ==> 1 <= r.used <= |s|
    {
      var quote, c := st.instring.value, s[0];
      if c == quote then
        Next(st.(instring := None, lastEmpty := st.lastEmpty || st.cur == ""), 1)
      else if Continues(s) then
        if quote == '"' then Next(st, 2) else Next(st.(cur := st.cur + "\\\n"), 2)
      else if c == '\n' && restp then
        Stop(Finish(st, Some(s)))
      else if quote == '"' && c in "\\$`" then
        Stop(Slow(None))
      else
        Next(st.(cur := st.cur + [c]), 1)
    }

    /** The end of an argument. */
    function EndArgument(s: string, st: State): (r: Round)
      requires s != ""
      ensures r.Next? ==> 1 <= r.used <= |s|
    {
      var st' := st.(done := st.done + [st.cur], cur := "", lastEmpty := false, wordHasEquals := false,
                     seenNonequals := st.seenNonequals || !st.wordHasEquals);
      if st.wordHasEquals && !st'.seenNonequals then Stop(Slow(None))
      else if |st'.done| == 1 && st.cur in shCmds then Stop(Slow(None))
      else Next(st', |s| - |SkipBlanks(s[1..])|)
    }

    function Outside(s: string, restp: bool, st: State): (r: Round)
      requires s != "" && st.instring.None?
      ensures r.Next? ==> 1 <= r.used <= |s|
    {
      var c := s[0];
      if c in shChars then Stop(Slow(None))
      else if c == '=' then
        if !st.seenNonequals then Stop(Slow(None)) else Next(st.(wordHasEquals := true, cur := st.cur + "="), 1)
      else if c == '\\' then Backslash(s, st)
      else if c == '\'' || c == '"' then Next(st.(instring := Some(c)), 1)
      else if c == '\n' && restp then Stop(Finish(st, Some(s)))
      else if IsBlank(c) then EndArgument(s, st)
      else Next(st.(cur := st.cur + [c]), 1)
    }

    /** What the loop of the fast path computes. */
    function Scan(s: string, restp: bool, st: State): Outcome {
      if s == "" then Finish(st, None)
      else
        match if st.instring.Some? then InString(s, restp, st) else Outside(s, restp, st)
        case Stop(outcome) => outcome
        case Next(st', n) => Scan(s[n..], restp, st')
    }

    /** The end of the fast path: count the last argument and look for a builtin. */
    method EndOfLine(st: State, rest: Option<string>) returns (outcome: Outcome)
      ensures outcome == Finish(st, rest)
    {
      if st.instring.Some? { return Slow(rest); }
      var newArgv := st.done;
      if st.cur != "" || st.lastEmpty { newArgv := newArgv + [st.cur]; }
      if |newArgv| == 1 {
        for j := 0 to |shCmds|
          invariant newArgv[0] !in shCmds[..j]
        {
          if shCmds[j] == newArgv[0] { return Slow(rest); }
        }
      }
      if newArgv == [] { return Nothing(rest); }
      outcome := Argv(newArgv, rest);
    }

    /** A character inside a quoted string, at position p of the line. */
    method QuotedRound(line: string, p: nat, restp: bool, st: State) returns (round: Round)
      requires p < |line| && st.instring.Some?
      ensures round == InString(line[p..], restp, st)
    {
      var c := line[p];
      var st' := st;
      var used := 1;
      if c == st.instring.value {
        st' := st'.(instring := None);
        if st.cur == "" { st' := st'.(lastEmpty := true); }
      } else if c == '\\' && p + 1 < |line| && line[p + 1] == '\n' {
        if st.instring.value != '"' { st' := st'.(cur := st.cur + "\\\n"); }
        used := 2;
      } else if c == '\n' && restp {
        var outcome := EndOfLine(st, Some(line[p..]));
        return Stop(outcome);
      } else if st.instring.value == '"' && c in "\\$`" {
        return Stop(Slow(None));
      } else {
        st' := st'.(cur := st.cur + [c]);
      }
      round := Next(st', used);
    }

    /** A blank outside a string ends an argument. */
    method BlankRound(line: string, p: nat, st: State) returns (round: Round)
      requires p < |line|
      ensures round == EndArgument(line[p..], st)
    {
      var seenNonequals := st.seenNonequals || !st.wordHasEquals;
      if st.wordHasEquals && !seenNonequals { return Stop(Slow(None)); }
      if st.done == [] {
        for j := 0 to |shCmds|
          invariant st.cur !in shCmds[..j]
        {
          if shCmds[j] == st.cur { return Stop(Slow(None)); }
        }
      }
      var q := SkipBlanksFrom(line, p + 1);
      assert line[p..][1..] == line[p + 1..];
      round := Next(State(st.done + [st.cur], "", st.instring, false, seenNonequals, false), q - p);
    }

    /** A backslash outside a string. */
    method BackslashRound(line: string, p: nat, st: State) returns (round: Round)
      requires p < |line| && line[p] == '\\'
      ensures round == Backslash(line[p..], st)
    {
      if p + 1 < |line| && line[p + 1] == '\n' {
        var q := p + 2;
        if st.cur == "" {
          q := SkipBlanksFrom(line, q);
          assert line[p..][2..] == line[p + 2..];
        }
        round := Next(st, q - p);
      } else if p + 1 < |line| {
        round := Next(st.(cur := st.cur + [line[p + 1]]), 2);
      } else {
        round := Next(st, 1);
      }
    }

    /** A character outside quoted strings. */
    method UnquotedRound(line: string, p: nat, restp: bool, st: State) returns (round: Round)
      requires p < |line| && st.instring.None?
      ensures round == Outside(line[p..], restp, st)
    {
      var c := line[p];
      if c in shChars {
        round := Stop(Slow(None));
      } else if c == '=' {
        if !st.seenNonequals { return Stop(Slow(None)); }
        round := Next(st.(wordHasEquals := true, cur := st.cur + "="), 1);
      } else if c == '\\' {
        round := BackslashRound(line, p, st);
      } else if c == '\'' || c == '"' {
        round := Next(st.(instring := Some(c)), 1);
      } else if c == '\n' && restp {
        var outcome := EndOfLine(st, Some(line[p..]));
        round := Stop(outcome);
      } else if IsBlank(c) {
        round := BlankRound(line, p, st);
      } else {
        round := Next(st.(cur := st.cur + [c]), 1);
      }
    }

    /** What a round means for the scan of what is left. */
    lemma ScanStep(line: string, p: nat, restp: bool, st: State, round: Round)
      requires p < |line|
      requires round == if st.instring.Some? then InString(line[p..], restp, st) else Outside(line[p..], restp, st)
      ensures round.Stop? ==> Scan(line[p..], restp, st) == round.outcome
      ensures round.Next? ==> 0 < round.used <= |line| - p
      ensures round.Next? ==> Scan(line[p..], restp, st) == Scan(line[p + round.used..], restp, round.state)
    {
      if round.Next? { DropTwice(line, p, round.used); }
    }

    /** The scan of the text comes to the goal. */
    ghost predicate Leads(s: string, restp: bool, st: State, goal: Outcome) {
      Scan(s, restp, st) == goal
    }

    lemma ScanEnd(line: string, p: nat, restp: bool, st: State, goal: Outcome)
      requires p == |line| && Leads(line[p..], restp, st, goal)
      ensures Finish(st, None) == goal
    {
    }

    /** One round, which leaves the same scan to be done. */
    method ScanRound(line: string, p: nat, restp: bool, st: State, ghost goal: Outcome) returns (round: Round)
      requires p < |line| && Leads(line[p..], restp, st, goal)
      ensures round.Stop? ==> round.outcome == goal
      ensures round.Next? ==> 0 < round.used <= |line| - p && Leads(line[p + round.used..], restp, round.state, goal)
    {
      if st.instring.Some? {
        round := QuotedRound(line, p, restp, st);
      } else {
        round := UnquotedRound(line, p, restp, st);
      }
      ScanStep(line, p, restp, st, round);
    }

    /** The fast path of construct_command_argv_internal. */
    method FastPath(line: string, restp: bool) returns (outcome: Outcome)
      ensures outcome == Scan(line, restp, START)
    {
      assert line[0..] == line;
      var round := ScanLine(line, restp, START, Scan(line, restp, START));
      if round.Stop? { return round.outcome; }
      outcome := EndOfLine(round.state, None);
    }

    /** The loop over the line, which stops, or gets to the end in some state. */
    method ScanLine(line: string, restp: bool, start: State, ghost goal: Outcome) returns (round: Round)
      requires Leads(line[0..], restp, start, goal)
      ensures round.Stop? ==> round.outcome == goal
      ensures round.Next? ==> Finish(round.state, None) == goal
    {
      var p := 0;
      round := Next(start, 0);
      while p < |line|
        invariant p <= |line| && round.Next? && Leads(line[p..], restp, round.state, goal)
        decreases |line| - p
      {
        round := ScanRound(line, p, restp, round.state, goal);
        if round.Stop? { return; }
        p := p + round.used;
      }
      ScanEnd(line, p, restp, round.state, goal);
    }

    // ----- the slow path -----

    predicate NeedsEscape(c: char) {
      c == '\\' || c == '\'' || c == '"' || IsSpace(c) || c in shChars
    }

    /** The line as it is written into the new command line, up to the newline that ends it. */
    function Escape(s: string, restp: bool): string {
      if s == "" || (restp && s[0] == '\n') then ""
      else if Continues(s) then "\\\\\n" + Escape(s[2..], restp)
      else (if NeedsEscape(s[0]) then "\\" else "") + [s[0]] + Escape(s[1..], restp)
    }

    /** What the shell is given: the line up to that newline. When newlines do not end the
        line, those without a backslash are lost. */
    function Kept(s: string, restp: bool): string {
      if s == "" || (restp && s[0] == '\n') then ""
      else if Continues(s) then "\\\n" + Kept(s[2..], restp)
      else (if s[0] == '\n' then "" else [s[0]]) + Kept(s[1..], restp)
    }

    /** The rest of the line, from the newline that ends the command. */
    function SlowRest(s: string, restp: bool): Option<string> {
      if s == "" then None
      else if restp && s[0] == '\n' then Some(s)
      else SlowRest(if Continues(s) then s[2..] else s[1..], restp)
    }

    function EscapeShell(shell: string): string {
      if shell == "" then ""
      else (if shell[0] in shChars then "\\" else "") + [shell[0]] + EscapeShell(shell[1..])
    }

    /** A character that the fast path copies once it is escaped as the shell is, provided that
        an equals sign comes behind the first word. */
    predicate Plain(c: char) {
      !IsBlank(c) && c != '\\' && c != '\'' && (c == '"' ==> c in shChars)
    }

    /** The first of the words can be one of a command that needs no shell. */
    predicate StartsCommand(words: seq<string>) {
      words != [] && words[0] !in shCmds && '=' !in words[0]
    }

    /** Words that stay as they are when they are escaped and split. */
    predicate PlainShell(shell: string) {
      (forall c :: c in shell ==> IsBlank(c) || Plain(c)) && StartsCommand(Words("", shell))
    }

    predicate PlainFlags(flags: string) {
      forall c :: c in flags ==> IsBlank(c) || (Plain(c) && c !in shChars)
    }

    predicate WellFormed() {
      && PlainShell(defaultShell)
      && (forall c :: c in shChars ==> !IsBlank(c) && c != '=' && c != '\\' && c != '\'' && c != '\n')
      && (forall w :: w in shCmds ==> '\\' !in w)
    }

    lemma ScanPlain(c: char, t: string, st: State)
      requires WellFormed() && st.instring.None? && Plain(c) && c != '=' && c !in shChars
      ensures Scan([c] + t, false, st) == Scan(t, false, st.(cur := st.cur + [c]))
    {
      assert ([c] + t)[1..] == t;
    }

    lemma ScanEquals(t: string, st: State)
      requires WellFormed() && st.instring.None? && st.seenNonequals && '=' !in shChars
      ensures Scan(['='] + t, false, st) == Scan(t, false, st.(wordHasEquals := true, cur := st.cur + ['=']))
    {
      assert (['='] + t)[1..] == t;
    }

    lemma ScanEscaped(c: char, t: string, st: State)
      requires WellFormed() && st.instring.None? && c != '\n'
      ensures Scan("\\" + [c] + t, false, st) == Scan(t, false, st.(cur := st.cur + [c]))
    {
      var s := "\\" + [c] + t;
      assert s[0] == '\\' && s[1] == c && s[2..] == t;
    }

    /** The builtins and the assignments are looked for in the first word only. */
    predicate MayRead(st: State, words: seq<string>) {
      if st.seenNonequals then st.done != []
      else st.done == [] && !st.wordHasEquals && StartsCommand(words)
    }

    /** A character of the escaped shell, or of the flags, is read back as it is. */
    lemma ScanShellChar(s: string, u: string, st: State) returns (st': State)
      requires WellFormed() && st.instring.None? && s != "" && Plain(s[0])
      requires MayRead(st, Words(st.cur, s))
      ensures st' == st.(cur := st.cur + [s[0]], wordHasEquals := st'.wordHasEquals)
      ensures MayRead(st', Words(st'.cur, s[1..])) && Words(st'.cur, s[1..]) == Words(st.cur, s)
      ensures Scan((if s[0] in shChars then "\\" else "") + [s[0]] + u, false, st) == Scan(u, false, st')
    {
      var c := s[0];
      st' := st.(cur := st.cur + [c]);
      FirstWordGrows(st'.cur, s[1..]);
      if c in shChars {
        ScanEscaped(c, u, st);
      } else {
        assert "" + [c] == [c];
        if c == '=' {
          assert '=' in st'.cur;
          ScanEquals(u, st);
          st' := st'.(wordHasEquals := true);
        } else {
          ScanPlain(c, u, st);
        }
      }
    }

    /** A blank ends the word that was read. */
    lemma ScanWordEnd(v: string, restp: bool, st: State)
      requires WellFormed() && st.instring.None? && v != "" && IsBlank(v[0]) && st.cur != ""
      requires MayRead(st, [st.cur])
      ensures Scan(v, restp, st)
           == Scan(SkipBlanks(v[1..]), restp, State(st.done + [st.cur], "", None, false, true, false))
    {
      var u := SkipBlanks(v[1..]);
      assert Outside(v, restp, st)
          == Next(State(st.done + [st.cur], "", None, false, true, false), |v| - |u|);
      BlankSkipped(v);
    }

    lemma BlankSkipped(v: string)
      requires v != ""
      ensures v[|v| - |SkipBlanks(v[1..])|..] == SkipBlanks(v[1..])
    {
      var u := SkipBlanks(v[1..]);
      SkippedIsSuffix(v[1..]);
      DropTwice(v, 1, |v| - 1 - |u|);
    }

    /** Blanks in front of escaped words. */
    lemma {:induction false} SkipEscaped(s: string, t: string)
      requires WellFormed()
      ensures SkipBlanks(EscapeShell(s) + (" " + t))
           == if SkipBlanks(s) == "" then SkipBlanks(t) else EscapeShell(SkipBlanks(s)) + (" " + t)
    {
      if s == "" {
        assert "" + (" " + t) == " " + t && (" " + t)[1..] == t;
      } else if IsBlank(s[0]) {
        assert "" + [s[0]] == [s[0]];
        Regroup([s[0]], EscapeShell(s[1..]), " " + t);
        assert (EscapeShell(s) + (" " + t))[1..] == EscapeShell(s[1..]) + (" " + t);
        SkipEscaped(s[1..], t);
      }
    }

    /** The words of the escaped shell, or of the flags, are read back. */
    lemma {:induction false} ScanWords(s: string, t: string, st: State)
      requires WellFormed() && st.instring.None? && !st.lastEmpty
      requires forall c :: c in s ==> IsBlank(c) || Plain(c)
      requires st.cur != "" || (s != "" && !IsBlank(s[0]))
      requires MayRead(st, Words(st.cur, s))
      ensures Scan(EscapeShell(s) + (" " + t), false, st)
           == Scan(SkipBlanks(t), false, State(st.done + Words(st.cur, s), "", None, false, true, false))
      decreases |s|
    {
      if s == "" {
        assert "" + (" " + t) == " " + t && (" " + t)[1..] == t;
        ScanWordEnd(" " + t, false, st);
      } else if IsBlank(s[0]) {
        ScanBlanks(s, t, st);
      } else {
        var u := EscapeShell(s[1..]) + (" " + t);
        var st' := ScanShellChar(s, u, st);
        ScanWords(s[1..], t, st');
        Regroup((if s[0] in shChars then "\\" else "") + [s[0]], EscapeShell(s[1..]), " " + t);
      }
    }

    lemma {:induction false} ScanBlanks(s: string, t: string, st: State)
      requires WellFormed() && st.instring.None? && s != "" && IsBlank(s[0]) && st.cur != ""
      requires forall c :: c in s ==> IsBlank(c) || Plain(c)
      requires MayRead(st, Words(st.cur, s))
      ensures Scan(EscapeShell(s) + (" " + t), false, st)
           == Scan(SkipBlanks(t), false, State(st.done + Words(st.cur, s), "", None, false, true, false))
      decreases |s|, 0
    {
      var u, v := SkipBlanks(s[1..]), EscapeShell(s) + (" " + t);
      var st' := State(st.done + [st.cur], "", None, false, true, false);
      assert v[0] == s[0] && v[1..] == EscapeShell(s[1..]) + (" " + t);
      assert Words(st.cur, s) == [st.cur] + Words("", s[1..]);
      ScanWordEnd(v, false, st);
      SkipEscaped(s[1..], t);
      WordsSkip(s[1..]);
      Regroup(st.done, [st.cur], Words("", u));
      if u != "" {
        SkippedIsSuffix(s[1..]);
        ScanWords(u, t, st');
      } else {
        assert [st.cur] + [] == [st.cur];
      }
    }

    lemma EscapeStartsPlain(s: string, restp: bool)
      requires WellFormed()
      ensures Escape(s, restp) != "" ==> !IsBlank(Escape(s, restp)[0])
    {
    }

    /** Two characters of the escaped line stand for one of the line. */
    lemma ScanDropped(t: string, st: State)
      requires WellFormed() && st.instring.None? && (t != "" ==> !IsBlank(t[0]))
      ensures Scan("\\\n" + t, false, st) == Scan(t, false, st)
    {
      var s := "\\\n" + t;
      assert s[2..] == t && SkipBlanks(t) == t;
    }

    /** The state after reading back the first round of the escaped line. */
    function After(s: string, st: State): State
      requires s != ""
    {
      if Continues(s) then st.(cur := st.cur + "\\\n")
      else if s[0] == '\n' then st
      else st.(cur := st.cur + [s[0]], wordHasEquals := st.wordHasEquals || s[0] == '=')
    }

    lemma ReparseRound(s: string, restp: bool, st: State)
      requires WellFormed() && st.instring.None? && st.seenNonequals
      requires s != "" && !(restp && s[0] == '\n')
      ensures Scan(Escape(s, restp), false, st)
           == Scan(Escape(if Continues(s) then s[2..] else s[1..], restp), false, After(s, st))
    {
      if Continues(s) {
        var t := Escape(s[2..], restp);
        assert (st.cur + "\\") + "\n" == st.cur + "\\\n";
        assert Escape(s, restp) == "\\" + ['\\'] + (['\n'] + t);
        ScanEscaped('\\', ['\n'] + t, st);
        ScanPlain('\n', t, st.(cur := st.cur + "\\"));
      } else if s[0] == '\n' {
        var t := Escape(s[1..], restp);
        assert Escape(s, restp) == "\\\n" + t;
        EscapeStartsPlain(s[1..], restp);
        ScanDropped(t, st);
      } else {
        ReparseChar(s, restp, st);
      }
    }

    /** The escaped line is read back as one argument, the text kept of the line. */
    lemma {:induction false} ReparseText(s: string, restp: bool, st: State)
      requires WellFormed() && st.instring.None? && st.seenNonequals
      ensures Scan(Escape(s, restp), false, st) == Finish(st.(cur := st.cur + Kept(s, restp)), None)
    {
      if s == "" || (restp && s[0] == '\n') {
        assert st.cur + "" == st.cur;
      } else {
        var t := if Continues(s) then s[2..] else s[1..];
        ReparseRound(s, restp, st);
        ReparseText(t, restp, After(s, st));
        KeptRound(s, restp, st);
      }
    }

    /** What the first round keeps. */
    function KeptHead(s: string): string
      requires s != ""
    {
      if Continues(s) then "\\\n" else if s[0] == '\n' then "" else [s[0]]
    }

    lemma KeptStep(s: string, restp: bool, st: State)
      requires s != "" && !(restp && s[0] == '\n')
      ensures Kept(s, restp) == KeptHead(s) + Kept(if Continues(s) then s[2..] else s[1..], restp)
      ensures After(s, st).cur == st.cur + KeptHead(s)
    {
      assert st.cur + "" == st.cur;
    }

    lemma KeptRound(s: string, restp: bool, st: State)
      requires s != "" && !(restp && s[0] == '\n')
      ensures var t := if Continues(s) then s[2..] else s[1..];
        Finish(After(s, st).(cur := After(s, st).cur + Kept(t, restp)), None)
        == Finish(st.(cur := st.cur + Kept(s, restp)), None)
    {
      var t := if Continues(s) then s[2..] else s[1..];
      KeptStep(s, restp, st);
      Regroup(st.cur, KeptHead(s), Kept(t, restp));
      FinishSame(After(s, st).(cur := st.cur + Kept(s, restp)), st.(cur := st.cur + Kept(s, restp)));
    }

    /** At the end it does not matter whether the word has an equals sign. */
    lemma FinishSame(a: State, b: State)
      requires a.(wordHasEquals := b.wordHasEquals) == b
      ensures Finish(a, None) == Finish(b, None)
    {
    }

    lemma ReparseChar(s: string, restp: bool, st: State)
      requires WellFormed() && st.instring.None? && st.seenNonequals
      requires s != "" && s[0] != '\n' && !Continues(s)
      ensures Scan(Escape(s, restp), false, st)
           == Scan(Escape(s[1..], restp), false,
                   st.(cur := st.cur + [s[0]], wordHasEquals := st.wordHasEquals || s[0] == '='))
    {
      var c, t := s[0], Escape(s[1..], restp);
      if NeedsEscape(c) {
        assert c != '=';
        ScanEscaped(c, t, st);
      } else if c == '=' {
        EscapeUnchanged(s, restp);
        ScanEquals(t, st);
      } else {
        EscapeUnchanged(s, restp);
        ScanPlain(c, t, st);
      }
    }

    lemma EscapeUnchanged(s: string, restp: bool)
      requires s != "" && s[0] != '\n' && !Continues(s) && !NeedsEscape(s[0])
      ensures Escape(s, restp) == [s[0]] + Escape(s[1..], restp)
    {
      assert "" + [s[0]] == [s[0]];
    }

    /** The new command line of the slow path. */
    function NewLine(shell: string, shellflags: Option<string>, line: string, restp: bool): string {
      EscapeShell(shell) + " " + (if shellflags.Some? then shellflags.value + " " else "") + Escape(line, restp)
    }

    /** What follows the shell in the new command line. */
    function Behind(shellflags: Option<string>, text: string): string {
      if shellflags.Some? then shellflags.value + (" " + text) else text
    }

    lemma NewLineParts(shell: string, shellflags: Option<string>, line: string, restp: bool)
      ensures NewLine(shell, shellflags, line, restp)
           == EscapeShell(shell) + (" " + Behind(shellflags, Escape(line, restp)))
    {
      var text := Escape(line, restp);
      if shellflags.Some? {
        Regroup(EscapeShell(shell) + " ", shellflags.value + " ", text);
        Regroup(shellflags.value, " ", text);
      } else {
        assert EscapeShell(shell) + " " + "" == EscapeShell(shell) + " ";
      }
      Regroup(EscapeShell(shell), " ", Behind(shellflags, text));
    }

    /** Splitting the new command line gives the words of the shell and of the flags, and the
        text; in particular it never needs the slow path again. */
    lemma NewLineSplits(shell: string, shellflags: Option<string>, line: string, restp: bool)
      requires WellFormed() && PlainShell(shell) && (shellflags.Some? ==> PlainFlags(shellflags.value))
      ensures Scan(SkipBlanks(NewLine(shell, shellflags, line, restp)), false, START)
           == Argv(ShellArgs(shell, shellflags, Kept(line, restp)), None)
    {
      var text := Escape(line, restp);
      var tail, first := Behind(shellflags, text), SkipBlanks(shell);
      NewLineParts(shell, shellflags, line, restp);
      SkipEscaped(shell, tail);
      WordsSkip(shell);
      SkippedIsSuffix(shell);
      assert forall c :: c in first ==> c in shell;
      ScanWords(first, tail, START);
      assert [] + Words("", shell) == Words("", shell);
      var args := Words("", shell);
      EscapeStartsPlain(line, restp);
      if shellflags.Some? {
        ScanFlags(args, shellflags.value, text);
        args := args + Words("", shellflags.value);
      } else {
        assert args + [] == args;
      }
      ReparseText(line, restp, State(args, "", None, false, true, false));
      FinishArgs(args, Kept(line, restp));
    }

    lemma FinishArgs(args: seq<string>, text: string)
      requires args != [] && (text != "" || |args| > 1 || args[0] !in shCmds)
      ensures Finish(State(args, "" + text, None, false, true, false), None)
           == Argv(args + if text != "" then [text] else [], None)
    {
      assert "" + text == text;
      assert args + [] == args;
    }

    lemma ScanFlags(args: seq<string>, flags: string, text: string)
      requires WellFormed() && PlainFlags(flags) && args != [] && (text != "" ==> !IsBlank(text[0]))
      ensures Scan(SkipBlanks(flags + (" " + text)), false, State(args, "", None, false, true, false))
           == Scan(text, false, State(args + Words("", flags), "", None, false, true, false))
    {
      var first := SkipBlanks(flags);
      FlagsAsShell(flags);
      SkipEscaped(flags, text);
      WordsSkip(flags);
      assert SkipBlanks(text) == text;
      if first == "" {
        assert args + [] == args;
      } else {
        SkippedIsSuffix(flags);
        assert forall c :: c in first ==> c in flags;
        ScanWords(first, text, State(args, "", None, false, true, false));
      }
    }

    function ShellArgs(shell: string, shellflags: Option<string>, text: string): seq<string> {
      Words("", shell) + (if shellflags.Some? then Words("", shellflags.value) else [])
        + if text != "" then [text] else []
    }

    lemma {:induction false} FlagsAsShell(flags: string)
      requires forall c :: c in flags ==> c !in shChars
      ensures EscapeShell(flags) == flags
    {
      if flags != "" { FlagsAsShell(flags[1..]); }
    }

    // ----- the whole function -----

    /** The line cannot be split without the shell, whatever it contains. */
    predicate MustUseShell(shell: Option<string>, shellflags: Option<string>, ifs: Option<string>) {
      || (shell.Some? && shell.value != defaultShell)
      || (ifs.Some? && exists c :: c in ifs.value && c != ' ' && c != '\t' && c != '\n')
      || (shellflags.Some? && shellflags.value != "-c" && shellflags.value != "-ec")
    }

    predicate GoesSlow(line: string, restp: bool, shell: Option<string>, shellflags: Option<string>,
                       ifs: Option<string>)
    {
      MustUseShell(shell, shellflags, ifs) || Scan(line, restp, START).Slow?
    }

    /** Copying the shell into the new command line. */
    method CopyShell(shell: string) returns (ap: string)
      ensures ap == EscapeShell(shell)
    {
      ap := "";
      for i := 0 to |shell|
        invariant ap + EscapeShell(shell[i..]) == EscapeShell(shell)
      {
        DropTwice(shell, i, 1);
        if shell[i] in shChars {
          Regroup(ap, "\\" + [shell[i]], EscapeShell(shell[i + 1..]));
          Regroup(ap, "\\", [shell[i]]);
          ap := ap + "\\";
        } else {
          assert "" + [shell[i]] == [shell[i]];
          Regroup(ap, [shell[i]], EscapeShell(shell[i + 1..]));
        }
        ap := ap + [shell[i]];
      }
    }

    /** What one round of the copying loop writes. */
    function Copied(s: string): string
      requires s != ""
    {
      if Continues(s) then "\\\\\n" else if NeedsEscape(s[0]) then ['\\', s[0]] else [s[0]]
    }

    lemma EscapeRound(s: string, restp: bool, used: nat)
      requires s != "" && !(restp && s[0] == '\n') && used == if Continues(s) then 2 else 1
      ensures Escape(s, restp) == Copied(s) + Escape(s[used..], restp)
      ensures SlowRest(s, restp) == SlowRest(s[used..], restp)
    {
    }

    method CopyChar(line: string, p: nat) returns (copied: string, used: nat)
      requires p < |line|
      ensures copied == Copied(line[p..]) && used == if Continues(line[p..]) then 2 else 1
    {
      if line[p] == '\\' && p + 1 < |line| && line[p + 1] == '\n' {
        return "\\\\\n", 2;
      }
      copied, used := "", 1;
      if NeedsEscape(line[p]) { copied := copied + "\\"; }
      copied := copied + [line[p]];
    }

    /** Copying the line, escaped, up to the newline that ends it. */
    method CopyLine(line: string, restp: bool) returns (ap: string, rest: Option<string>)
      ensures ap == Escape(line, restp) && rest == SlowRest(line, restp)
    {
      ap, rest := "", None;
      var p := 0;
      while p < |line|
        invariant p <= |line| && rest == None
        invariant ap + Escape(line[p..], restp) == Escape(line, restp)
        invariant SlowRest(line[p..], restp) == SlowRest(line, restp)
      {
        if restp && line[p] == '\n' {
          rest := Some(line[p..]);
          break;
        }
        var copied, used := CopyChar(line, p);
        EscapeRound(line[p..], restp, used);
        DropTwice(line, p, used);
        Regroup(ap, copied, Escape(line[p + used..], restp));
        ap, p := ap + copied, p + used;
      }
    }

    /** A newline that no backslash precedes ends the command for the slow path. */
    ghost predicate EndsAt(s: string, e: nat) {
      e < |s| && s[e] == '\n' && (e > 0 ==> s[e - 1] != '\\')
    }

    lemma {:induction false} EndIsFound(s: string, e: nat)
      requires EndsAt(s, e)
      ensures SlowRest(s, true).Some?
    {
      if s[0] != '\n' {
        var n := if Continues(s) then 2 else 1;
        EndIsFound(s[n..], e - n);
      }
    }

    /** What the fast path has just read: a backslash is either the end of the current
        argument, or quoted and not followed by a newline. */
    ghost predicate ReadBackslash(s: string, st: State, prev: char) {
      && (st.instring.Some? ==> st.instring.value != '\\')
      && (prev == '\\' && s != "" ==>
        if st.instring.Some? then s[0] != '\n' else st.cur != "" && st.cur[|st.cur| - 1] == '\\')
    }

    /** When the fast path has found the end of the command but needs the shell, the slow path
        finds an end too. */
    lemma {:induction false} StaleRest(s: string, st: State, prev: char) returns (e: nat)
      requires WellFormed()
      requires ReadBackslash(s, st, prev)
      requires Scan(s, true, st).Slow? && Scan(s, true, st).rest.Some?
      ensures EndsAt(s, e) && (e == 0 ==> prev != '\\')
    {
      var round := if st.instring.Some? then InString(s, true, st) else Outside(s, true, st);
      if round.Stop? {
        e := 0;
      } else {
        var n := round.used;
        RoundRead(s, st, round);
        e := StaleRest(s[n..], round.state, s[n - 1]);
        e := e + n;
      }
    }

    lemma RoundRead(s: string, st: State, round: Round)
      requires s != "" && round.Next?
      requires round == if st.instring.Some? then InString(s, true, st) else Outside(s, true, st)
      requires st.instring.Some? ==> st.instring.value != '\\'
      ensures ReadBackslash(s[round.used..], round.state, s[round.used - 1])
    {
      if st.instring.None? && IsBlank(s[0]) { SkipsBlanks(s[1..]); }
      if st.instring.None? && Continues(s) { SkipsBlanks(s[2..]); }
    }

    /** The text given to the shell is the line up to the first newline without a backslash
        immediately before it. */
    lemma {:induction false} KeptIsPrefix(s: string)
      ensures Kept(s, true) <= s
      ensures SlowRest(s, true) == if Kept(s, true) == s then None else Some(s[|Kept(s, true)|..])
      ensures forall e :: 0 <= e < |Kept(s, true)| ==> !EndsAt(s, e)
      ensures Kept(s, true) == s || EndsAt(s, |Kept(s, true)|)
    {
      if s != "" && s[0] != '\n' {
        var n := if Continues(s) then 2 else 1;
        var k := Kept(s[n..], true);
        KeptIsPrefix(s[n..]);
        assert s == s[..n] + s[n..];
        assert Kept(s, true) == s[..n] + k;
        forall e | 0 <= e < n + |k| ensures !EndsAt(s, e) {
          if e >= n { assert !EndsAt(s[n..], e - n); }
        }
      }
    }

    lemma {:induction false} EscapesGrow(shell: string)
      ensures |EscapeShell(shell)| >= |shell|
      ensures |EscapeShell(shell)| == |shell| ==> EscapeShell(shell) == shell
    {
      if shell != "" { EscapesGrow(shell[1..]); }
    }

    /** How deep the function may still call itself: a line to be split for the default shell
        goes slow at most once more. */
    ghost function Depth(line: string, restp: bool, shell: Option<string>): nat {
      if shell.Some? then 2 else if Scan(SkipBlanks(line), restp, START).Slow? then 1 else 0
    }

    /** The test for an empty text by the length of the new command line. It fails to see one
        when the shell has characters to be escaped; without flags it is off by one. */
    predicate LooksEmpty(shell: string, shellflags: Option<string>, text: string) {
      if shellflags.Some? then text == "" && EscapeShell(shell) == shell
      else |EscapeShell(shell) + text| == |shell| + 1
    }

    /** The arguments when the line goes to the shell. */
    function ViaShell(line: string, restp: bool, shell: string, shellflags: Option<string>): Option<seq<string>> {
      if LooksEmpty(shell, shellflags, Escape(line, restp)) then None
      else Some(ShellArgs(shell, shellflags, Kept(line, restp)))
    }

    /** construct_command_argv_internal. Only a call of its own leaves out the shell. */
    method Construct(text: string, restp: bool, shell: Option<string>, shellflags: Option<string>, ifs: Option<string>)
      returns (argv: Option<seq<string>>, rest: Option<string>)
      requires WellFormed()
      requires shell.None? ==> shellflags.None? && ifs.None?
      ensures var line := SkipBlanks(text);
        if line == "" then argv == None && rest == None
        else if GoesSlow(line, restp, shell, shellflags, ifs) then
          && (restp ==> rest == SlowRest(line, true))
          && (shell.Some? && PlainShell(shell.value) && (shellflags.Some? ==> PlainFlags(shellflags.value)) ==>
                argv == ViaShell(line, restp, shell.value, shellflags))
        else match Scan(line, restp, START)
          case Nothing(r) => argv == None && rest == r
          case Argv(args, r) => argv == Some(args) && rest == r
          case Slow(_) => false
      decreases Depth(text, restp, shell), 0
    {
      var start := SkipBlanksFrom(text, 0);
      var line := text[start..];
      assert text[0..] == text;
      if line == "" { return None, None; }
      var sh := if shell.Some? then shell.value else defaultShell;
      rest := None;
      if !MustUseShell(shell, shellflags, ifs) {
        var outcome := FastPath(line, restp);
        match outcome {
          case Nothing(r) => return None, r;
          case Argv(args, r) => return Some(args), r;
          case Slow(r) => rest := r;
        }
      }
      if restp && rest.Some? {
        var e := StaleRest(line, START, ' ');
        EndIsFound(line, e);
      }
      argv, rest := UseShell(line, restp, sh, shellflags, rest, if shell.Some? then 1 else 0);
    }

    /** The slow path. The line is put into a command line for the shell, and that is split. */
    method UseShell(line: string, restp: bool, shell: string, shellflags: Option<string>, stale: Option<string>,
                    ghost depth: nat)
      returns (argv: Option<seq<string>>, rest: Option<string>)
      requires WellFormed()
      requires depth > 0 || (shell == defaultShell && shellflags == None)
      ensures rest == if SlowRest(line, restp).Some? then SlowRest(line, restp) else stale
      ensures PlainShell(shell) && (shellflags.Some? ==> PlainFlags(shellflags.value)) ==>
        argv == ViaShell(line, restp, shell, shellflags)
      decreases depth, 1
    {
      var newLine := CopyShell(shell);
      newLine := newLine + " ";
      if shellflags.Some? { newLine := newLine + shellflags.value + " "; }
      var copied, slowRest := CopyLine(line, restp);
      newLine := newLine + copied;
      rest := if slowRest.Some? then slowRest else stale;
      var flagsLength := if shellflags.Some? then |shellflags.value| else 0;
      EscapesGrow(shell);
      NothingEscaped(shell, Escape(line, restp));
      if |newLine| == |shell| + flagsLength + 2 { return None, rest; }
      assert newLine == NewLine(shell, shellflags, line, restp);
      if PlainShell(shell) && (shellflags.Some? ==> PlainFlags(shellflags.value)) {
        NewLineSplits(shell, shellflags, line, restp);
      }
      var noRest;
      argv, noRest := Construct(newLine, false, None, None, None);
    }

    lemma NothingEscaped(shell: string, text: string)
      ensures |EscapeShell(shell) + text| == |shell| <==> text == "" && EscapeShell(shell) == shell
    {
      EscapesGrow(shell);
    }

    // ----- which lines need a shell -----

    /** A command that is split without a shell does not begin with a builtin. */
    lemma {:induction false} FirstIsNoBuiltin(s: string, restp: bool, st: State, args: seq<string>,
                                              rest: Option<string>)
      requires Scan(s, restp, st) == Argv(args, rest)
      requires st.done != [] ==> st.done[0] !in shCmds
      ensures args != [] && args[0] !in shCmds
      decreases |s|
    {
      if s != "" {
        RoundKeepsFirst(s, restp, st);
        match if st.instring.Some? then InString(s, restp, st) else Outside(s, restp, st)
        case Stop(_) =>
        case Next(st', n) => FirstIsNoBuiltin(s[n..], restp, st', args, rest);
      }
    }

    lemma RoundKeepsFirst(s: string, restp: bool, st: State)
      requires s != "" && (st.done != [] ==> st.done[0] !in shCmds)
      ensures match if st.instring.Some? then InString(s, restp, st) else Outside(s, restp, st)
        case Stop(o) => o.Argv? ==> o.argv != [] && o.argv[0] !in shCmds
        case Next(st', _) => st'.done != [] ==> st'.done[0] !in shCmds
    {
    }

    /** No quote, backslash or newline. */
    predicate Simple(c: char) {
      c != '\\' && c != '\'' && c != '"' && c != '\n'
    }

    /** A shell character before any quote or backslash makes the line need a shell. */
    lemma {:induction false} ShellCharGoesSlow(s: string, k: nat, restp: bool, st: State)
      requires WellFormed() && st.instring.None? && k < |s| && s[k] in shChars
      requires forall j: nat :: j < k ==> Simple(s[j])
      ensures Scan(s, restp, st).Slow?
      decreases |s|
    {
      if k > 0 && s[0] !in shChars {
        match Outside(s, restp, st)
        case Stop(_) =>
        case Next(st', n) =>
          if IsBlank(s[0]) { NotSkipped(s, k); }
          assert n <= k && s[n..][k - n] == s[k];
          assert forall j: nat :: j < k - n ==> s[n..][j] == s[n + j];
          ShellCharGoesSlow(s[n..], k - n, restp, st');
      }
    }

    lemma NotSkipped(s: string, k: nat)
      requires WellFormed() && k < |s| && s[k] in shChars && k > 0
      ensures |s| - |SkipBlanks(s[1..])| <= k
    {
      SkipsBlanks(s[1..]);
      assert s[1..][k - 1] == s[k];
    }

    /** So does an equals sign in the first word. */
    lemma {:induction false} AssignmentGoesSlow(w: string, rest: string, restp: bool, st: State)
      requires st.instring.None? && !st.seenNonequals
      requires forall c :: c in w ==> Simple(c) && !IsBlank(c)
      ensures Scan(w + ("=" + rest), restp, st).Slow?
    {
      if w == "" {
        assert w + ("=" + rest) == "=" + rest;
      } else if w[0] in shChars || w[0] == '=' {
        assert (w + ("=" + rest))[0] == w[0];
      } else {
        assert w[0] in w;
        assert (w + ("=" + rest))[1..] == w[1..] + ("=" + rest);
        AssignmentGoesSlow(w[1..], rest, restp, st.(cur := st.cur + [w[0]]));
      }
    }

    /** A line without quotes, backslashes and shell characters is split at its blanks. */
    predicate PlainLine(line: string) {
      forall c :: c in line ==> Simple(c) && c !in shChars
    }

    lemma {:induction false} PlainLineScans(s: string, restp: bool, st: State)
      requires WellFormed() && st.instring.None? && !st.lastEmpty && PlainLine(s)
      requires st.cur != "" || (s != "" && !IsBlank(s[0])) || (s == "" && st.done != [])
      requires MayRead(st, Words(st.cur, s)) && (st.done != [] ==> st.done[0] !in shCmds)
      ensures Scan(s, restp, st) == Argv(st.done + Words(st.cur, s), None)
      decreases |s|
    {
      if s == "" {
        assert st.done + [] == st.done;
      } else if IsBlank(s[0]) {
        PlainBlanks(s, restp, st);
      } else {
        var st' := PlainCharScans(s, restp, st);
        PlainLineScans(s[1..], restp, st');
      }
    }

    lemma FirstOfMore(st: State, s: string)
      requires s != "" && IsBlank(s[0]) && st.cur != "" && MayRead(st, Words(st.cur, s))
      ensures MayRead(st, [st.cur]) && (st.done == [] ==> st.cur !in shCmds)
      ensures Words(st.cur, s) == [st.cur] + Words("", s[1..])
    {
    }

    lemma {:induction false} PlainBlanks(s: string, restp: bool, st: State)
      requires WellFormed() && st.instring.None? && PlainLine(s) && s != "" && IsBlank(s[0]) && st.cur != ""
      requires MayRead(st, Words(st.cur, s)) && (st.done != [] ==> st.done[0] !in shCmds)
      ensures Scan(s, restp, st) == Argv(st.done + Words(st.cur, s), None)
      decreases |s|, 0
    {
      var u := SkipBlanks(s[1..]);
      var st' := State(st.done + [st.cur], "", None, false, true, false);
      FirstOfMore(st, s);
      ScanWordEnd(s, restp, st);
      SkippedIsSuffix(s[1..]);
      assert forall c :: c in u ==> c in s;
      WordsSkip(s[1..]);
      PlainLineScans(u, restp, st');
      Regroup(st.done, [st.cur], Words("", u));
    }

    lemma PlainCharScans(s: string, restp: bool, st: State) returns (st': State)
      requires WellFormed() && st.instring.None? && s != "" && !IsBlank(s[0]) && PlainLine(s)
      requires MayRead(st, Words(st.cur, s))
      ensures st' == st.(cur := st.cur + [s[0]], wordHasEquals := st'.wordHasEquals)
      ensures MayRead(st', Words(st'.cur, s[1..])) && Words(st'.cur, s[1..]) == Words(st.cur, s)
      ensures Scan(s, restp, st) == Scan(s[1..], restp, st')
    {
      st' := st.(cur := st.cur + [s[0]]);
      FirstWordGrows(st'.cur, s[1..]);
      if s[0] == '=' {
        assert '=' in st'.cur;
        st' := st'.(wordHasEquals := true);
      }
    }

    /** Such a line is split at its blanks, unless it begins with a builtin or an assignment. */
    lemma PlainLineSplits(line: string, restp: bool)
      requires WellFormed() && PlainLine(line) && StartsCommand(Words("", line)) && SkipBlanks(line) == line
      ensures Scan(line, restp, START) == Argv(Words("", line), None)
    {
      PlainLineScans(line, restp, START);
      assert [] + Words("", line) == Words("", line);
    }

    /** The words between apostrophes, one blank after each but the last. */
    function QuotedLine(words: seq<string>): string
      requires words != []
    {
      "'" + (words[0] + ("'" + if |words| == 1 then "" else " " + QuotedLine(words[1..])))
    }

    lemma {:induction false} QuotedTextReads(w: string, t: string, restp: bool, st: State)
      requires st.instring == Some('\'') && '\'' !in w && '\n' !in w
      ensures Scan(w + ("'" + t), restp, st)
           == Scan(t, restp, st.(cur := st.cur + w, instring := None, lastEmpty := st.lastEmpty || st.cur + w == ""))
      decreases |w|
    {
      if w == "" {
        assert w + ("'" + t) == "'" + t && ("'" + t)[1..] == t && st.cur + w == st.cur;
      } else {
        var s, st' := w + ("'" + t), st.(cur := st.cur + [w[0]]);
        assert s[1..] == w[1..] + ("'" + t) && s[0] == w[0];
        assert |w| > 1 ==> s[1] == w[1];
        assert !Continues(s);
        QuotedTextReads(w[1..], t, restp, st');
        Regroup(st.cur, [w[0]], w[1..]);
        assert [w[0]] + w[1..] == w;
      }
    }

    /** A word between apostrophes at the front is read, up to what follows. */
    lemma QuotedWordReads(w: string, t: string, restp: bool, st: State)
      requires WellFormed() && '\'' !in w && '\n' !in w
      requires st == State(st.done, "", None, false, st.seenNonequals, false)
      ensures Scan("'" + (w + ("'" + t)), restp, st) == Scan(t, restp, st.(cur := w, lastEmpty := w == ""))
    {
      var s := "'" + (w + ("'" + t));
      assert s[1..] == w + ("'" + t) && "" + w == w && '\'' !in shChars;
      assert Scan(s, restp, st) == Scan(s[1..], restp, st.(instring := Some('\'')));
      QuotedTextReads(w, t, restp, st.(instring := Some('\'')));
    }

    lemma BlankThenWord(w: string, more: string, restp: bool, st: State)
      requires WellFormed() && st == State(st.done, w, None, false, st.done != [], w == "")
      requires SkipBlanks(more) == more && (st.done == [] ==> w !in shCmds)
      ensures Scan(" " + more, restp, st) == Scan(more, restp, State(st.done + [w], "", None, false, true, false))
    {
      assert (" " + more)[1..] == more;
    }

    /** Words between apostrophes come back whatever they contain, but for newlines. */
    lemma {:induction false} QuotedLineSplits(words: seq<string>, restp: bool, st: State)
      requires WellFormed() && words != [] && forall w :: w in words ==> '\'' !in w && '\n' !in w
      requires st == State(st.done, "", None, false, st.done != [], false)
      requires st.done == [] ==> words[0] !in shCmds
      ensures Scan(QuotedLine(words), restp, st) == Argv(st.done + words, None)
      decreases |words|
    {
      var w := words[0];
      if |words| == 1 {
        QuotedWordReads(w, "", restp, st);
        assert "'" + "" == "'" && words == [w];
      } else {
        var more := QuotedLine(words[1..]);
        QuotedWordReads(w, " " + more, restp, st);
        BlankThenWord(w, more, restp, st.(cur := w, lastEmpty := w == ""));
        QuotedLineSplits(words[1..], restp, State(st.done + [w], "", None, false, true, false));
        Regroup(st.done, [w], words[1..]);
        assert [w] + words[1..] == words;
      }
    }

    /** A text without backslashes and newlines is kept as it is. */
    lemma {:induction false} KeptWhole(s: string)
      requires '\\' !in s && '\n' !in s
      ensures Kept(s, true) == s && (s != "" ==> Escape(s, true) != "")
    {
      if s != "" { KeptWhole(s[1..]); }
    }
  }

  const SH_CHARS := "#;\"*?[]&|<>(){}$`^~!"
  const SH_CMDS_1: seq<string> := [".", ":", "alias", "bg", "break", "case", "cd", "command", "continue"]
  const SH_CMDS_2: seq<string> := ["eval", "exec", "exit", "export", "fc", "fg", "for", "getopts", "hash"]
  const SH_CMDS_3: seq<string> := ["if", "jobs", "login", "logout", "read", "readonly", "return", "set", "shift"]
  const SH_CMDS_4: seq<string> :=
    ["test", "times", "trap", "type", "ulimit", "umask", "unalias", "unset", "wait", "while"]
  const SH_CMDS := SH_CMDS_1 + SH_CMDS_2 + SH_CMDS_3 + SH_CMDS_4
  const UNIX := Syntax(SH_CHARS, SH_CMDS, "/bin/sh")

  lemma UnixChars()
    ensures forall c :: c in SH_CHARS ==> !IsBlank(c) && c != '=' && c != '\\' && c != '\'' && c != '\n'
    ensures '"' in SH_CHARS && '/' !in SH_CHARS && '-' !in SH_CHARS && 'c' !in SH_CHARS && 'e' !in SH_CHARS
  {
  }

  ghost predicate NoPathOrEscape(words: seq<string>) {
    forall w :: w in words ==> '\\' !in w && '/' !in w
  }

  lemma UnixCmds1()
    ensures NoPathOrEscape(SH_CMDS_1)
  {
  }

  lemma UnixCmds2()
    ensures NoPathOrEscape(SH_CMDS_2)
  {
  }

  lemma UnixCmds3()
    ensures NoPathOrEscape(SH_CMDS_3)
  {
  }

  lemma UnixCmds4()
    ensures NoPathOrEscape(SH_CMDS_4)
  {
  }

  lemma BothLists(a: seq<string>, b: seq<string>)
    requires NoPathOrEscape(a) && NoPathOrEscape(b)
    ensures NoPathOrEscape(a + b)
  {
  }

  lemma UnixCmds()
    ensures NoPathOrEscape(SH_CMDS)
  {
    UnixCmds1();
    UnixCmds2();
    UnixCmds3();
    UnixCmds4();
    BothLists(SH_CMDS_1, SH_CMDS_2);
    BothLists(SH_CMDS_1 + SH_CMDS_2, SH_CMDS_3);
    BothLists(SH_CMDS_1 + SH_CMDS_2 + SH_CMDS_3, SH_CMDS_4);
  }

  lemma Unbroken(w: string)
    requires w != "" && forall c :: c in w ==> !IsBlank(c)
    ensures Words("", w) == [w]
  {
    OneWord("", w);
    assert "" + w == w;
  }

  lemma PlainWord(sx: Syntax, w: string)
    requires w != "" && w !in sx.shCmds && forall c :: c in w ==> sx.Plain(c) && c != '='
    ensures sx.PlainShell(w) && Words("", w) == [w]
  {
    Unbroken(w);
  }

  lemma ShellIsPlain(sx: Syntax)
    requires sx.shChars == SH_CHARS && NoPathOrEscape(sx.shCmds)
    ensures sx.PlainShell("/bin/sh") && Words("", "/bin/sh") == ["/bin/sh"]
  {
    UnixChars();
    var w := "/bin/sh";
    assert w[0] == '/';
    PlainWord(sx, w);
  }

  lemma FlagsArePlain(sx: Syntax)
    requires sx.shChars == SH_CHARS
    ensures sx.PlainFlags("-c") && sx.PlainFlags("-ec")
    ensures Words("", "-c") == ["-c"] && Words("", "-ec") == ["-ec"]
  {
    UnixChars();
    Unbroken("-c");
    Unbroken("-ec");
  }

  /** Everything above holds of the tables in the source, with the flags make uses by default. */
  lemma UnixIsWellFormed()
    ensures UNIX.WellFormed()
    ensures UNIX.PlainShell("/bin/sh") && UNIX.PlainFlags("-c") && UNIX.PlainFlags("-ec")
  {
    UnixChars();
    UnixCmds();
    ShellIsPlain(UNIX);
    FlagsArePlain(UNIX);
  }
}
