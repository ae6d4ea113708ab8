/** Command lines worked out: which need a shell, and what is run for them. */
module CommandExamples {
  import opened Prelude
  import opened CommandArgv
  import opened PosixFields

  /** The tables hold the characters that quote, separate, redirect, expand, match and comment,
      the special builtins of section 2.14 of the Shell Command Language, and builtins that depend
      on the state of the shell. */
  lemma UnixTables()
    ensures forall c :: c in "\"`$" || c in ";&|<>()" || c in "*?[]" || c in "#~{}^!" <==> c in UNIX.shChars
  {
  }

  lemma SpecialBuiltins(w: string)
    requires w in ["break", ":", "continue", ".", "eval", "exec"] || w in ["exit", "export", "readonly", "return"]
      || w in ["set", "shift", "times", "trap", "unset"]
    ensures w in UNIX.shCmds
  {
    InLists(w);
  }

  lemma OtherBuiltins(w: string)
    requires w in ["alias", "bg", "cd", "command", "fc", "fg", "getopts"] || w in ["hash", "jobs", "read", "type"]
      || w in ["ulimit", "umask", "unalias", "wait", "login", "logout"] || w in ["case", "for", "if", "while", "test"]
    ensures w in UNIX.shCmds
  {
    InLists(w);
  }

  lemma InLists(w: string)
    ensures w in SH_CMDS_1 || w in SH_CMDS_2 || w in SH_CMDS_3 || w in SH_CMDS_4 <==> w in UNIX.shCmds
  {
  }

  /** One line, without blanks in front and without backslashes. */
  predicate OneLine(line: string) {
    line != "" && !IsBlank(line[0]) && '\\' !in line && '\n' !in line
  }

  /** The syntax with its shell and the flags make uses. */
  predicate Usual(sx: Syntax, flags: string) {
    && sx.WellFormed() && Words("", sx.defaultShell) == [sx.defaultShell]
    && sx.PlainFlags(flags) && Words("", flags) == [flags] && (flags == "-c" || flags == "-ec")
  }

  lemma ShellAndFlags(sx: Syntax)
    requires sx.WellFormed() && sx.defaultShell == "/bin/sh" && sx.shChars == SH_CHARS && NoPathOrEscape(sx.shCmds)
    ensures Usual(sx, "-c") && Usual(sx, "-ec")
  {
    ShellIsPlain(sx);
    FlagsArePlain(sx);
  }

  lemma UnixIsUsual()
    ensures Usual(UNIX, "-c") && Usual(UNIX, "-ec") && UNIX.defaultShell == "/bin/sh"
  {
    UnixIsWellFormed();
    UnixCmds();
    ShellAndFlags(UNIX);
  }

  /** What make runs for a line, with its own shell. */
  method Run(sx: Syntax, line: string, flags: string) returns (argv: Option<seq<string>>)
    requires OneLine(line) && Usual(sx, flags)
    ensures sx.Scan(line, true, START).Slow? ==> argv == Some([sx.defaultShell, flags, line])
    ensures sx.Scan(line, true, START).Argv? ==> argv == Some(sx.Scan(line, true, START).argv)
  {
    sx.KeptWhole(line);
    var rest;
    argv, rest := sx.Construct(line, true, Some(sx.defaultShell), Some(flags), None);
    assert [sx.defaultShell] + [flags] + [line] == [sx.defaultShell, flags, line];
  }

  /** A line with a shell character before any quote goes to the shell as it is. */
  method RunSpecial(sx: Syntax, line: string, k: nat, flags: string) returns (argv: Option<seq<string>>)
    requires OneLine(line) && Usual(sx, flags)
    requires k < |line| && line[k] in sx.shChars && forall j: nat :: j < k ==> sx.Simple(line[j])
    ensures argv == Some([sx.defaultShell, flags, line])
  {
    sx.ShellCharGoesSlow(line, k, true, START);
    argv := Run(sx, line, flags);
  }

  lemma EchoHome(sx: Syntax)
    ensures OneLine("echo $HOME") && forall j: nat :: j < 5 ==> sx.Simple("echo $HOME"[j])
    ensures "echo $HOME"[5] == '$'
  {
  }

  lemma DollarIsSpecial()
    ensures '$' in UNIX.shChars
  {
  }

  method RunEchoHome() returns (argv: Option<seq<string>>)
    ensures argv == Some(["/bin/sh", "-c", "echo $HOME"])
  {
    UnixIsUsual();
    DollarIsSpecial();
    EchoHome(UNIX);
    argv := RunSpecial(UNIX, "echo $HOME", 5, "-c");
  }

  /** So does a line that begins with an assignment. */
  method RunAssignment(sx: Syntax, w: string, rest: string, flags: string) returns (argv: Option<seq<string>>)
    requires OneLine(w + ("=" + rest)) && Usual(sx, flags)
    requires forall c :: c in w ==> sx.Simple(c) && !IsBlank(c)
    ensures argv == Some([sx.defaultShell, flags, w + ("=" + rest)])
  {
    sx.AssignmentGoesSlow(w, rest, true, START);
    argv := Run(sx, w + ("=" + rest), flags);
  }

  lemma {:induction false} BuiltinGoesSlow(sx: Syntax, w: string, t: string, restp: bool, st: State)
    requires sx.WellFormed() && st == State([], st.cur, None, false, false, false) && st.cur + w in sx.shCmds
    requires (forall c :: c in w ==> sx.Simple(c) && !IsBlank(c)) && st.cur + w != ""
    requires t == "" || IsBlank(t[0])
    ensures sx.Scan(w + t, restp, st).Slow?
    decreases |w|
  {
    if w == "" {
      assert w + t == t && st.cur + w == st.cur;
    } else {
      assert (w + t)[0] == w[0] && w[0] in w;
      if w[0] !in sx.shChars && w[0] != '=' {
        assert (w + t)[1..] == w[1..] + t && [w[0]] + w[1..] == w;
        Regroup(st.cur, [w[0]], w[1..]);
        BuiltinGoesSlow(sx, w[1..], t, restp, st.(cur := st.cur + [w[0]]));
      }
    }
  }

  /** And one that begins with a builtin. */
  method RunBuiltin(sx: Syntax, w: string, t: string, flags: string) returns (argv: Option<seq<string>>)
    requires OneLine(w + t) && Usual(sx, flags) && w in sx.shCmds && w != ""
    requires (forall c :: c in w ==> sx.Simple(c) && !IsBlank(c)) && (t == "" || IsBlank(t[0]))
    ensures argv == Some([sx.defaultShell, flags, w + t])
  {
    assert "" + w == w;
    BuiltinGoesSlow(sx, w, t, true, START);
    argv := Run(sx, w + t, flags);
  }

  lemma CdIsPlain(sx: Syntax)
    ensures OneLine("cd" + " d") && "cd" + " d" == "cd d" && IsBlank(" d"[0])
    ensures forall c :: c in "cd" ==> sx.Simple(c) && !IsBlank(c)
  {
  }

  method RunCd() returns (argv: Option<seq<string>>)
    ensures argv == Some(["/bin/sh", "-c", "cd d"])
  {
    OtherBuiltins("cd");
    CdIsPlain(UNIX);
    UnixIsUsual();
    argv := RunBuiltin(UNIX, "cd", " d", "-c");
  }

  /** A plain line is run without a shell, and split at its blanks. */
  method RunPlain(sx: Syntax, line: string, flags: string) returns (argv: Option<seq<string>>)
    requires OneLine(line) && sx.PlainLine(line) && Usual(sx, flags) && sx.StartsCommand(Words("", line))
    ensures argv == Some(Words("", line))
  {
    assert SkipBlanks(line) == line;
    sx.PlainLineSplits(line, true);
    argv := Run(sx, line, flags);
  }

  lemma TwoWords(a: string, blank: char, b: string)
    requires a != "" && b != "" && IsBlank(blank) && forall c :: c in a || c in b ==> !IsBlank(c)
    ensures Words("", a + ([blank] + b)) == [a, b]
  {
    FirstOfTwo("", a, [blank] + b);
    assert "" + a == a && ([blank] + b)[1..] == b;
    Unbroken(b);
    assert [a] + [b] == [a, b];
  }

  lemma {:induction false} FirstOfTwo(cur: string, a: string, rest: string)
    requires cur + a != "" && rest != "" && IsBlank(rest[0]) && forall c :: c in a ==> !IsBlank(c)
    ensures Words(cur, a + rest) == [cur + a] + Words("", rest[1..])
    decreases |a|
  {
    if a == "" {
      assert a + rest == rest && cur + a == cur;
    } else {
      assert (a + rest)[1..] == a[1..] + rest && [a[0]] + a[1..] == a;
      Regroup(cur, [a[0]], a[1..]);
      FirstOfTwo(cur + [a[0]], a[1..], rest);
    }
  }

  /** A character a plain word can be made of. */
  predicate InWord(sx: Syntax, c: char) {
    sx.Simple(c) && !IsBlank(c) && c !in sx.shChars && c != '='
  }

  /** A tab separates words as a space does. */
  method RunTwoWords(sx: Syntax, a: string, blank: char, b: string, flags: string) returns (argv: Option<seq<string>>)
    requires Usual(sx, flags) && IsBlank(blank) && a != "" && b != "" && a !in sx.shCmds
    requires forall c :: c in a || c in b ==> InWord(sx, c)
    ensures argv == Some([a, b])
  {
    var line := a + ([blank] + b);
    TwoWords(a, blank, b);
    assert line[0] == a[0] && a[0] in a;
    forall c | c in line ensures sx.Simple(c) && c !in sx.shChars {
      assert c in a || c == blank || c in b;
    }
    argv := RunPlain(sx, line, flags);
  }

  lemma UnixWord(sx: Syntax, w: string)
    requires sx.shChars == SH_CHARS && NoPathOrEscape(sx.shCmds)
    requires forall c :: c in w ==> c == '/' || c == 'c' || c == 'e'
    ensures (forall c :: c in w ==> InWord(sx, c)) && ('/' in w ==> w !in sx.shCmds)
  {
    UnixChars();
  }

  method RunTabbed() returns (argv: Option<seq<string>>)
    ensures argv == Some(["/c", "e"])
  {
    UnixIsUsual();
    UnixCmds();
    UnixWord(UNIX, "/c");
    UnixWord(UNIX, "e");
    assert "/c"[0] == '/';
    argv := RunTwoWords(UNIX, "/c", '\t', "e", "-c");
  }

  /** Words between apostrophes are run as they are, without a shell. */
  method RunQuoted(sx: Syntax, words: seq<string>, flags: string) returns (argv: Option<seq<string>>)
    requires words != [] && words[0] !in sx.shCmds && Usual(sx, flags)
    requires forall w :: w in words ==> '\'' !in w && '\n' !in w && '\\' !in w
    ensures argv == Some(words)
  {
    sx.QuotedLineSplits(words, true, START);
    QuotedIsOneLine(sx, words);
    assert [] + words == words;
    argv := Run(sx, sx.QuotedLine(words), flags);
  }

  lemma {:induction false} QuotedIsOneLine(sx: Syntax, words: seq<string>)
    requires words != [] && forall w :: w in words ==> '\'' !in w && '\n' !in w && '\\' !in w
    ensures OneLine(sx.QuotedLine(words))
  {
    if |words| > 1 { QuotedIsOneLine(sx, words[1..]); }
  }

  /** Another shell is always used, whatever the line. */
  method RunOtherShell(sx: Syntax, line: string, shell: string, flags: string) returns (argv: Option<seq<string>>)
    requires sx.WellFormed() && OneLine(line) && sx.PlainShell(shell) && sx.PlainFlags(flags)
    requires shell != sx.defaultShell
    ensures argv == Some(Words("", shell) + Words("", flags) + [line])
  {
    sx.KeptWhole(line);
    var rest;
    argv, rest := sx.Construct(line, true, Some(shell), Some(flags), None);
  }

  /** So is make's own shell with flags other than -c and -ec. */
  method RunOtherFlags(sx: Syntax, line: string, flags: string) returns (argv: Option<seq<string>>)
    requires sx.WellFormed() && OneLine(line) && sx.PlainFlags(flags) && flags != "-c" && flags != "-ec"
    ensures argv == Some(Words("", sx.defaultShell) + Words("", flags) + [line])
  {
    sx.KeptWhole(line);
    var rest;
    argv, rest := sx.Construct(line, true, Some(sx.defaultShell), Some(flags), None);
  }

  /** And when IFS has other characters than blanks and newlines; with those alone it is not. */
  method RunSeparated(sx: Syntax, line: string, ifs: string) returns (argv: Option<seq<string>>)
    requires Usual(sx, "-c") && OneLine(line) && sx.PlainLine(line) && sx.StartsCommand(Words("", line))
    ensures argv == if exists c :: c in ifs && c != ' ' && c != '\t' && c != '\n'
                    then Some([sx.defaultShell, "-c", line]) else Some(Words("", line))
  {
    sx.KeptWhole(line);
    assert SkipBlanks(line) == line;
    sx.PlainLineSplits(line, true);
    var rest;
    argv, rest := sx.Construct(line, true, Some(sx.defaultShell), Some("-c"), Some(ifs));
    assert [sx.defaultShell] + ["-c"] + [line] == [sx.defaultShell, "-c", line];
  }
}
