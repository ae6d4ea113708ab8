/** The fields of a command line according to the Shell Command Language (XCU) of POSIX, for
    text quoted with backslashes and apostrophes only, as three passes: line continuation
    (section 2.2.1), token recognition (section 2.3) and quote removal (section 2.6.7). */
module PosixFields {
  import opened CommandArgv
  import opened Prelude

  /** A backslash followed by a newline is removed, except between apostrophes. */
  function JoinLines(s: string, quoted: bool): string {
    if s == "" then ""
    else if quoted then [s[0]] + JoinLines(s[1..], s[0] != '\'')
    else if Continues(s) then JoinLines(s[2..], false)
    else if s[0] == '\\' && |s| > 1 then [s[0], s[1]] + JoinLines(s[2..], false)
    else [s[0]] + JoinLines(s[1..], s[0] == '\'')
  }

  function Text(word: Option<string>): string {
    if word.Some? then word.value else ""
  }

  function One(word: Option<string>): seq<string> {
    if word.Some? then [word.value] else []
  }

  /** Blanks that are not quoted delimit the words, which keep their quotes. */
  function RawWords(s: string, word: Option<string>, quoted: bool): seq<string> {
    if s == "" then One(word)
    else if quoted then RawWords(s[1..], Some(Text(word) + [s[0]]), s[0] != '\'')
    else if IsBlank(s[0]) then One(word) + RawWords(s[1..], None, false)
    else if s[0] == '\\' && |s| > 1 then RawWords(s[2..], Some(Text(word) + [s[0], s[1]]), false)
    else RawWords(s[1..], Some(Text(word) + [s[0]]), s[0] == '\'')
  }

  function Unquote(w: string, quoted: bool): string {
    if w == "" then ""
    else if w[0] == '\'' then Unquote(w[1..], !quoted)
    else if !quoted && w[0] == '\\' && |w| > 1 then [w[1]] + Unquote(w[2..], false)
    else [w[0]] + Unquote(w[1..], quoted)
  }

  function UnquoteAll(words: seq<string>): seq<string> {
    if words == [] then [] else [Unquote(words[0], false)] + UnquoteAll(words[1..])
  }

  function Fields(text: string): seq<string> {
    UnquoteAll(RawWords(JoinLines(text, false), None, false))
  }

  // ----- token recognition and quote removal at once -----

  function Split(s: string, word: Option<string>, quoted: bool): seq<string> {
    if s == "" then One(word)
    else if quoted then
      if s[0] == '\'' then Split(s[1..], Some(Text(word)), false) else Split(s[1..], Some(Text(word) + [s[0]]), true)
    else if IsBlank(s[0]) then One(word) + Split(s[1..], None, false)
    else if s[0] == '\\' && |s| > 1 then Split(s[2..], Some(Text(word) + [s[1]]), false)
    else if s[0] == '\'' then Split(s[1..], Some(Text(word)), true)
    else Split(s[1..], Some(Text(word) + [s[0]]), false)
  }

  /** The quoted word so far stands for the unquoted one, whatever follows. */
  ghost predicate StandsFor(raw: Option<string>, word: Option<string>, quoted: bool) {
    && raw.Some? == word.Some?
    && forall t: string {:trigger Text(raw) + t} :: Unquote(Text(raw) + t, false) == Text(word) + Unquote(t, quoted)
  }

  lemma Extend(raw: Option<string>, word: Option<string>, quoted: bool, more: string, text: string, quoted': bool)
    requires StandsFor(raw, word, quoted)
    requires forall t: string {:trigger more + t} :: Unquote(more + t, quoted) == text + Unquote(t, quoted')
    ensures StandsFor(Some(Text(raw) + more), Some(Text(word) + text), quoted')
  {
    forall t: string ensures Unquote((Text(raw) + more) + t, false) == (Text(word) + text) + Unquote(t, quoted') {
      Regroup(Text(raw), more, t);
      Regroup(Text(word), text, Unquote(t, quoted'));
    }
  }

  lemma UnquoteAllAppends(a: seq<string>, b: seq<string>)
    ensures UnquoteAll(a + b) == UnquoteAll(a) + UnquoteAll(b)
  {
    if a == [] {
      assert a + b == b;
    } else {
      assert (a + b)[1..] == a[1..] + b;
    }
  }

  lemma StandsForOne(raw: Option<string>, word: Option<string>, quoted: bool)
    requires StandsFor(raw, word, quoted)
    ensures UnquoteAll(One(raw)) == One(word)
  {
    assert Text(raw) + "" == Text(raw);
    assert Text(word) + "" == Text(word);
  }

  /** What a chunk of the text adds to the current word. */
  lemma UnquoteChar(c: char, quoted: bool)
    requires quoted || c != '\\'
    ensures forall t: string {:trigger [c] + t} ::
      Unquote([c] + t, quoted) == (if c == '\'' then "" else [c]) + Unquote(t, if c == '\'' then !quoted else quoted)
  {
    forall t: string
      ensures Unquote([c] + t, quoted)
        == (if c == '\'' then "" else [c]) + Unquote(t, if c == '\'' then !quoted else quoted)
    {
      assert ([c] + t)[1..] == t;
    }
  }

  lemma UnquotePair(c: char)
    ensures forall t: string {:trigger ['\\', c] + t} :: Unquote(['\\', c] + t, false) == [c] + Unquote(t, false)
  {
    forall t: string ensures Unquote(['\\', c] + t, false) == [c] + Unquote(t, false) {
      assert (['\\', c] + t)[2..] == t;
    }
  }

  lemma LoneBackslashSplits(s: string, raw: Option<string>, word: Option<string>)
    requires StandsFor(raw, word, false) && |s| == 1 && s[0] == '\\'
    ensures UnquoteAll(RawWords(s, raw, false)) == Split(s, word, false)
  {
    var r, w := Text(raw) + s, Text(word) + s;
    assert Unquote(r, false) == Text(word) + Unquote(s, false);
    assert s[1..] == "" && [s[0]] == s && Unquote("", false) == "";
    assert Unquote(s, false) == s + "" == s;
    assert RawWords("", Some(r), false) == [r] && Split("", Some(w), false) == [w];
    assert RawWords(s, raw, false) == [r] && Split(s, word, false) == [w];
    assert [r][1..] == [] && UnquoteAll([]) == [];
    assert UnquoteAll([r]) == [Unquote(r, false)] + [] == [w];
  }

  /** The last two passes are one. */
  lemma {:induction false} SplitIsTwoPasses(s: string, raw: Option<string>, word: Option<string>, quoted: bool)
    requires StandsFor(raw, word, quoted)
    ensures UnquoteAll(RawWords(s, raw, quoted)) == Split(s, word, quoted)
  {
    if s == "" {
      StandsForOne(raw, word, quoted);
    } else if !quoted && IsBlank(s[0]) {
      StandsForOne(raw, word, quoted);
      UnquoteAllAppends(One(raw), RawWords(s[1..], None, false));
      assert forall t: string :: "" + t == t;
      SplitIsTwoPasses(s[1..], None, None, false);
    } else if !quoted && s[0] == '\\' {
      if |s| > 1 {
        UnquotePair(s[1]);
        Extend(raw, word, false, [s[0], s[1]], [s[1]], false);
        SplitIsTwoPasses(s[2..], Some(Text(raw) + [s[0], s[1]]), Some(Text(word) + [s[1]]), false);
      } else {
        LoneBackslashSplits(s, raw, word);
      }
    } else {
      var c := s[0];
      UnquoteChar(c, quoted);
      var text := if c == '\'' then "" else [c];
      var quoted' := if c == '\'' then !quoted else quoted;
      Extend(raw, word, quoted, [c], text, quoted');
      assert Text(word) + "" == Text(word);
      SplitIsTwoPasses(s[1..], Some(Text(raw) + [c]), Some(Text(word) + text), quoted');
    }
  }

  lemma FieldsAreSplit(text: string)
    ensures Fields(text) == Split(JoinLines(text, false), None, false)
  {
    assert forall t: string :: "" + t == t;
    SplitIsTwoPasses(JoinLines(text, false), None, None, false);
  }

  // ----- the fast path -----

  /** The word that the fast path is in, if it is in one. */
  function WordOf(st: State): Option<string> {
    if st.cur != "" || st.lastEmpty || st.instring.Some? then Some(st.cur) else None
  }

  /** A word starts right at the front of the text. */
  predicate WordFollows(t: string) {
    JoinLines(t, false) != "" && !IsBlank(JoinLines(t, false)[0])
  }

  /** Where a piece of the text stands: between apostrophes, in a word that has text already,
      in a word that began with an empty quoted string. */
  datatype Place = Place(quoted: bool, text: bool, empty: bool)

  const FRONT := Place(false, false, false)

  function PlaceOf(st: State): Place {
    Place(st.instring.Some?, st.cur != "", st.lastEmpty)
  }

  /** The two places where the fast path departs from the standard: a backslash that ends the
      text is dropped; and a line continuation with blanks, right after an empty quoted word,
      makes that word one with the next. */
  predicate Departs(s: string, at: Place)
    requires s != ""
  {
    !at.quoted && (
      s == "\\" ||
      (Continues(s) && !at.text && at.empty && |s| > 2 && IsBlank(s[2]) && WordFollows(SkipBlanks(s[2..]))))
  }

  /** How much is read at once. */
  function Used(s: string, at: Place): (n: nat)
    requires s != ""
    ensures 0 < n <= |s|
  {
    if at.quoted then if Continues(s) then 2 else 1
    else if Continues(s) then if at.text then 2 else |s| - |SkipBlanks(s[2..])|
    else if s[0] == '\\' then if |s| > 1 then 2 else 1
    else if IsBlank(s[0]) then |s| - |SkipBlanks(s[1..])|
    else 1
  }

  function PlaceAfter(s: string, at: Place): Place
    requires s != ""
  {
    if at.quoted then
      if s[0] == '\'' then Place(false, at.text, at.empty || !at.text) else at.(text := true)
    else if Continues(s) || s == "\\" then at
    else if s[0] == '\'' then at.(quoted := true)
    else if IsBlank(s[0]) then FRONT
    else at.(text := true)
  }

  /** The text has neither of the two forms. */
  predicate Faithful(s: string, at: Place)
    decreases |s|
  {
    s == "" || (!Departs(s, at) && Faithful(s[Used(s, at)..], PlaceAfter(s, at)))
  }

  /** Total length of the words, counting each word once more. */
  function Size(words: seq<string>): nat {
    if words == [] then 0 else |words[0]| + 1 + Size(words[1..])
  }

  lemma {:induction false} SizeAppends(a: seq<string>, b: seq<string>)
    ensures Size(a + b) == Size(a) + Size(b)
  {
    if a == [] {
      assert a + b == b;
    } else {
      assert (a + b)[1..] == a[1..] + b;
      SizeAppends(a[1..], b);
    }
  }

  /** The fast path never finds more than the standard; it finds the same when it is faithful,
      and strictly less when it is not. */
  ghost predicate Compared(args: seq<string>, fields: seq<string>, faithful: bool) {
    if faithful then args == fields else Size(args) < Size(fields)
  }

  /** The fields that the standard gives for what was and what remains to be read. */
  function Expected(s: string, st: State): seq<string> {
    st.done + Split(JoinLines(s, st.instring.Some?), WordOf(st), st.instring.Some?)
  }

  /** Outside a word, no blank is next. */
  predicate AtWord(s: string, st: State) {
    WordOf(st).None? && s != "" ==> !IsBlank(s[0])
  }

  lemma {:induction false} BlanksDoNotMatter(s: string)
    ensures Split(JoinLines(s, false), None, false) == Split(JoinLines(SkipBlanks(s), false), None, false)
  {
    if s != "" && IsBlank(s[0]) {
      assert JoinLines(s, false)[1..] == JoinLines(s[1..], false);
      BlanksDoNotMatter(s[1..]);
    }
  }

  /** A blank ends the word. */
  lemma BlankEndsWord(s: string, word: Option<string>)
    requires s != "" && IsBlank(s[0])
    ensures Split(JoinLines(s, false), word, false)
      == One(word) + Split(JoinLines(SkipBlanks(s[1..]), false), None, false)
  {
    assert JoinLines(s, false)[1..] == JoinLines(s[1..], false);
    BlanksDoNotMatter(s[1..]);
  }

  lemma QuotedRoundKeeps(sx: Syntax, s: string, st: State, st': State, n: nat)
    requires s != "" && st.instring == Some('\'')
    requires sx.InString(s, true, st) == Next(st', n)
    ensures Expected(s[n..], st') == Expected(s, st) && AtWord(s[n..], st')
  {
    var j := JoinLines(s[1..], s[0] != '\'');
    assert JoinLines(s, true)[1..] == j;
    if Continues(s) {
      var x := JoinLines(s[2..], true);
      assert s[1..][1..] == s[2..];
      assert j == ['\n'] + x && j[1..] == x;
      assert Split(j, Some(st.cur + ['\\']), true) == Split(x, Some(st.cur + ['\\'] + ['\n']), true);
      assert st.cur + ['\\'] + ['\n'] == st.cur + "\\\n";
    }
  }

  lemma BlankRoundKeeps(sx: Syntax, s: string, st: State, st': State, n: nat)
    requires s != "" && st.instring.None? && IsBlank(s[0]) && AtWord(s, st)
    requires sx.EndArgument(s, st) == Next(st', n)
    ensures Expected(s[n..], st') == Expected(s, st) && AtWord(s[n..], st')
  {
    BlankEndsWord(s, WordOf(st));
    SkippedIs(s, 1);
    assert One(WordOf(st)) == [st.cur];
    Regroup(st.done, [st.cur], Split(JoinLines(s[n..], false), None, false));
  }

  lemma SkippedIs(s: string, k: nat)
    requires k <= |s|
    ensures |s| - |SkipBlanks(s[k..])| >= k && s[|s| - |SkipBlanks(s[k..])|..] == SkipBlanks(s[k..])
  {
    SkippedIsSuffix(s[k..]);
  }

  /** A continuation is faithful unless it makes an empty quoted word one with the next. */
  lemma ContinuationRound(s: string, st: State)
    requires Continues(s) && st.instring.None?
    ensures var n := if st.cur == "" then |s| - |SkipBlanks(s[2..])| else 2;
      && n <= |s| && AtWord(s[n..], st)
      && (!Departs(s, PlaceOf(st)) ==> Expected(s[n..], st) == Expected(s, st))
      && (Departs(s, PlaceOf(st)) ==> Size(Expected(s[n..], st)) < Size(Expected(s, st)))
  {
    SkippedIs(s, 2);
    if st.cur == "" && |s| > 2 && IsBlank(s[2]) {
      ContinuedBlank(s, st);
    }
  }

  /** Before any word the blanks behind a continuation do not matter; behind an empty quoted
      word they do when another word follows. */
  lemma ContinuedBlank(s: string, st: State)
    requires Continues(s) && st.instring.None? && st.cur == "" && |s| > 2 && IsBlank(s[2])
    ensures var t := SkipBlanks(s[2..]);
      && (!Departs(s, PlaceOf(st)) ==> Expected(t, st) == Expected(s, st))
      && (Departs(s, PlaceOf(st)) ==> Size(Expected(t, st)) < Size(Expected(s, st)))
  {
    var t := SkipBlanks(s[2..]);
    var x := JoinLines(t, false);
    BlankEndsWord(s[2..], WordOf(st));
    assert SkipBlanks(s[2..]) == SkipBlanks(s[2..][1..]);
    assert JoinLines(s, false) == JoinLines(s[2..], false);
    assert Expected(s, st) == st.done + (One(WordOf(st)) + Split(x, None, false));
    if !st.lastEmpty {
      assert [] + Split(x, None, false) == Split(x, None, false);
    } else if WordFollows(t) {
      assert Split(x, Some(""), false) == Split(x, None, false);
      MoreWords(st.done, Split(x, None, false));
    } else {
      NoWordFollows(t);
    }
  }

  lemma MoreWords(a: seq<string>, b: seq<string>)
    ensures Size(a + b) < Size(a + ([""] + b))
  {
    SizeAppends(a, b);
    SizeAppends(a, [""] + b);
  }

  /** An empty word ends before the end of the text or a blank. */
  lemma NoWordFollows(t: string)
    requires !WordFollows(t)
    ensures Split(JoinLines(t, false), Some(""), false) == [""] + Split(JoinLines(t, false), None, false)
  {
    var x := JoinLines(t, false);
    if x != "" { assert [] + Split(x[1..], None, false) == Split(x[1..], None, false); }
  }

  lemma PlainRoundKeeps(sx: Syntax, s: string, st: State, st': State, n: nat)
    requires s != "" && st.instring.None? && '"' in sx.shChars
    requires !IsBlank(s[0]) && !Continues(s) && s != "\\"
    requires sx.Outside(s, true, st) == Next(st', n)
    ensures Expected(s[n..], st') == Expected(s, st) && AtWord(s[n..], st')
  {
    var j := JoinLines(s, false);
    if s[0] == '\\' {
      assert j[2..] == JoinLines(s[2..], false);
    } else {
      assert j[1..] == JoinLines(s[1..], s[0] == '\'');
    }
  }

  lemma LoneBackslashRound(st: State)
    requires st.instring.None?
    ensures Size(Expected("", st)) < Size(Expected("\\", st))
  {
    assert JoinLines("\\", false) == "\\";
    assert Split("\\", WordOf(st), false) == [Text(WordOf(st)) + "\\"];
    SizeAppends(st.done, One(WordOf(st)));
    SizeAppends(st.done, [Text(WordOf(st)) + "\\"]);
  }

  lemma RoundAgainstSplit(sx: Syntax, s: string, st: State, st': State, n: nat)
    requires s != "" && '"' in sx.shChars && st.instring != Some('"') && AtWord(s, st)
    requires (if st.instring.Some? then sx.InString(s, true, st) else sx.Outside(s, true, st)) == Next(st', n)
    requires st.instring.Some? ==> st.instring.value == '\''
    ensures st'.instring.Some? ==> st'.instring.value == '\''
    ensures AtWord(s[n..], st')
    ensures !Departs(s, PlaceOf(st)) ==> Expected(s[n..], st') == Expected(s, st)
    ensures Departs(s, PlaceOf(st)) ==> Size(Expected(s[n..], st')) < Size(Expected(s, st))
  {
    if st.instring.Some? {
      QuotedRoundKeeps(sx, s, st, st', n);
    } else if IsBlank(s[0]) {
      BlankRoundKeeps(sx, s, st, st', n);
    } else if Continues(s) {
      ContinuationRound(s, st);
    } else if s == "\\" {
      LoneBackslashRound(st);
    } else {
      PlainRoundKeeps(sx, s, st, st', n);
    }
  }

  /** A round moves through the text as its quoting alone says. */
  lemma RoundMoves(sx: Syntax, s: string, restp: bool, st: State, st': State, n: nat)
    requires s != "" && '"' in sx.shChars && (st.instring.Some? ==> st.instring.value == '\'')
    requires (if st.instring.Some? then sx.InString(s, restp, st) else sx.Outside(s, restp, st)) == Next(st', n)
    ensures n == Used(s, PlaceOf(st)) && PlaceOf(st') == PlaceAfter(s, PlaceOf(st))
  {
  }

  /** The arguments of a command that needs no shell; a command without any is not run. */
  function Arguments(o: Outcome): seq<string>
    requires !o.Slow?
  {
    if o.Nothing? then [] else o.argv
  }

  lemma {:induction false} ScanAgainstSplit(sx: Syntax, s: string, st: State, args: seq<string>)
    requires '"' in sx.shChars && (st.instring.Some? ==> st.instring.value == '\'') && AtWord(s, st)
    requires var o := sx.Scan(s, true, st);
      !o.Slow? && o.rest == None && Arguments(o) == args
    ensures Compared(args, Expected(s, st), Faithful(s, PlaceOf(st)))
    decreases |s|
  {
    if s != "" {
      var round := if st.instring.Some? then sx.InString(s, true, st) else sx.Outside(s, true, st);
      var st', n := round.state, round.used;
      RoundAgainstSplit(sx, s, st, st', n);
      RoundMoves(sx, s, true, st, st', n);
      ScanAgainstSplit(sx, s[n..], st', args);
    }
  }

  // ----- up to the newline that ends the command -----

  lemma {:induction false} RestIsSuffix(sx: Syntax, s: string, restp: bool, st: State)
    ensures var rest := sx.Scan(s, restp, st).rest;
      rest.Some? ==>
        rest.value != "" && |rest.value| <= |s| && rest.value == s[|s| - |rest.value|..] && rest.value[0] == '\n'
    decreases |s|
  {
    if s != "" {
      match if st.instring.Some? then sx.InString(s, restp, st) else sx.Outside(s, restp, st)
      case Stop(_) =>
      case Next(st', n) => RestIsSuffix(sx, s[n..], restp, st');
    }
  }

  lemma {:induction false} SkipStopsAtNewline(s: string, r: string)
    requires r != "" && r[0] == '\n'
    ensures SkipBlanks(s + r) == SkipBlanks(s) + r
  {
    if s == "" {
      assert s + r == r;
      assert SkipBlanks(s) == s;
    } else if IsBlank(s[0]) {
      assert (s + r)[1..] == s[1..] + r;
      SkipStopsAtNewline(s[1..], r);
    } else {
      assert (s + r)[0] == s[0];
      assert SkipBlanks(s) == s;
    }
  }

  function RoundOf(sx: Syntax, s: string, st: State): Round
    requires s != ""
  {
    if st.instring.Some? then sx.InString(s, true, st) else sx.Outside(s, true, st)
  }

  /** A round that stays before the newline is the same without what follows. */
  lemma SameRound(sx: Syntax, s: string, r: string, st: State)
    requires s != "" && r != "" && r[0] == '\n'
    requires RoundOf(sx, s + r, st).Next? && RoundOf(sx, s + r, st).used <= |s|
    ensures RoundOf(sx, s, st) == RoundOf(sx, s + r, st)
    ensures st.instring != Some('\n') ==> RoundOf(sx, s, st).state.instring != Some('\n')
  {
    DropOfBoth(s, r, 1);
    SkipStopsAtNewline(s[1..], r);
    if |s| > 1 {
      DropOfBoth(s, r, 2);
      SkipStopsAtNewline(s[2..], r);
    }
    if st.instring.Some? { SameString(sx, s, r, st); } else { SameOutside(sx, s, r, st); }
  }

  lemma DropOfBoth(s: string, r: string, n: nat)
    requires n <= |s|
    ensures (s + r)[n..] == s[n..] + r
  {
  }

  lemma SameString(sx: Syntax, s: string, r: string, st: State)
    requires s != "" && r != "" && r[0] == '\n' && st.instring.Some?
    requires sx.InString(s + r, true, st).Next? && sx.InString(s + r, true, st).used <= |s|
    ensures sx.InString(s, true, st) == sx.InString(s + r, true, st)
    ensures st.instring != Some('\n') ==> sx.InString(s, true, st).state.instring != Some('\n')
  {
  }

  lemma SameBackslash(s: string, r: string, st: State)
    requires s != "" && s[0] == '\\' && r != "" && r[0] == '\n'
    requires Backslash(s + r, st).Next? && Backslash(s + r, st).used <= |s|
    requires |s| > 1 ==> SkipBlanks((s + r)[2..]) == SkipBlanks(s[2..]) + r
    ensures Backslash(s, st) == Backslash(s + r, st)
  {
    if |s| > 1 { assert (s + r)[1] == s[1]; }
  }

  lemma SameOutside(sx: Syntax, s: string, r: string, st: State)
    requires s != "" && r != "" && r[0] == '\n' && st.instring.None?
    requires sx.Outside(s + r, true, st).Next? && sx.Outside(s + r, true, st).used <= |s|
    requires (s + r)[1..] == s[1..] + r && SkipBlanks(s[1..] + r) == SkipBlanks(s[1..]) + r
    requires |s| > 1 ==> (s + r)[2..] == s[2..] + r && SkipBlanks(s[2..] + r) == SkipBlanks(s[2..]) + r
    ensures sx.Outside(s, true, st) == sx.Outside(s + r, true, st)
    ensures sx.Outside(s, true, st).state.instring != Some('\n')
  {
    assert (s + r)[0] == s[0];
    if s[0] == '\\' && s[0] !in sx.shChars {
      SameBackslash(s, r, st);
    } else if IsBlank(s[0]) && s[0] !in sx.shChars {
      assert sx.EndArgument(s, st) == sx.EndArgument(s + r, st);
    }
  }

  function WithoutRest(o: Outcome): Outcome {
    match o
    case Slow(_) => Slow(None)
    case Nothing(_) => Nothing(None)
    case Argv(args, _) => Argv(args, None)
  }

  /** The command up to its newline gives the same arguments by itself. */
  lemma {:induction false} NewlineEndsCommand(sx: Syntax, s: string, r: string, st: State)
    requires r != "" && r[0] == '\n' && '\n' !in sx.shChars && st.instring != Some('\n')
    requires !sx.Scan(s + r, true, st).Slow? && sx.Scan(s + r, true, st).rest == Some(r)
    ensures sx.Scan(s, true, st) == WithoutRest(sx.Scan(s + r, true, st))
    decreases |s|
  {
    if s == "" {
      assert s + r == r;
    } else {
      StopsLater(sx, s, r, st);
      var round := RoundOf(sx, s + r, st);
      var st', n := round.state, round.used;
      RestIsSuffix(sx, (s + r)[n..], true, st');
      SameRound(sx, s, r, st);
      assert (s + r)[n..] == s[n..] + r;
      NewlineEndsCommand(sx, s[n..], r, st');
    }
  }

  lemma StopsLater(sx: Syntax, s: string, r: string, st: State)
    requires s != "" && r != ""
    requires !sx.Scan(s + r, true, st).Slow? && sx.Scan(s + r, true, st).rest == Some(r)
    ensures RoundOf(sx, s + r, st).Next?
    ensures sx.Scan((s + r)[RoundOf(sx, s + r, st).used..], true, RoundOf(sx, s + r, st).state)
      == sx.Scan(s + r, true, st)
  {
    assert |s + r| > |r|;
  }

  /** The command that the fast path has split: the line up to the newline left in *restp. */
  function Command(line: string, rest: Option<string>): string
    requires rest.Some? ==> |rest.value| <= |line|
  {
    if rest.Some? then line[..|line| - |rest.value|] else line
  }

  lemma CommandAndRest(line: string, rest: Option<string>)
    requires rest.Some? ==> |rest.value| <= |line| && rest.value == line[|line| - |rest.value|..]
    ensures rest.Some? ==> line == Command(line, rest) + rest.value
  {
  }

  lemma CommandAgrees(sx: Syntax, command: string, args: seq<string>)
    requires '"' in sx.shChars && (command != "" ==> !IsBlank(command[0]))
    requires var o := sx.Scan(command, true, START); !o.Slow? && o.rest == None && Arguments(o) == args
    ensures args == Fields(command) <==> Faithful(command, FRONT)
  {
    ScanAgainstSplit(sx, command, START, args);
    FieldsAreSplit(command);
    assert [] + Fields(command) == Fields(command);
  }

  /** Arguments found without a shell, if any, are the fields of the standard if and only if the
      command has neither of the two forms the fast path treats differently. */
  lemma FastPathAgrees(sx: Syntax, line: string)
    requires sx.WellFormed() && '"' in sx.shChars && (line != "" ==> !IsBlank(line[0]))
    requires !sx.Scan(line, true, START).Slow?
    ensures var o := sx.Scan(line, true, START);
      && (o.rest.Some? ==> |o.rest.value| <= |line| && line == Command(line, o.rest) + o.rest.value)
      && (Arguments(o) == Fields(Command(line, o.rest)) <==> Faithful(Command(line, o.rest), FRONT))
  {
    var o := sx.Scan(line, true, START);
    var args, rest := Arguments(o), o.rest;
    RestIsSuffix(sx, line, true, START);
    var command := Command(line, rest);
    CommandAndRest(line, rest);
    if rest.Some? { NewlineEndsCommand(sx, command, rest.value, START); }
    CommandAgrees(sx, command, args);
  }

  /** A command with no backslash at all is split as the standard says. */
  lemma {:induction false} NoBackslashIsFaithful(s: string, at: Place)
    requires '\\' !in s
    ensures Faithful(s, at)
    decreases |s|
  {
    if s != "" { NoBackslashIsFaithful(s[Used(s, at)..], PlaceAfter(s, at)); }
  }

  /** A backslash at the end is lost. */
  lemma LoneBackslashIsLost(sx: Syntax)
    requires sx.WellFormed() && 'y' !in sx.shChars && "y" !in sx.shCmds
    ensures sx.Scan("y\\", true, START) == Argv(["y"], None)
    ensures Fields("y\\") == ["y\\"]
  {
    var line, st := "y\\", START.(cur := "y");
    assert line[1..] == "\\" && "\\"[1..] == "" && "" + ['y'] == "y" && [] + ["y"] == ["y"];
    assert sx.Scan(line, true, START) == sx.Scan("\\", true, st) == sx.Scan("", true, st);
    assert JoinLines("\\", false) == "\\" && JoinLines(line, false) == line;
    assert Split("\\", Some("y"), false) == [line];
    FieldsAreSplit(line);
  }

  /** A line of one backslash is no command at all. */
  lemma LoneBackslashIsNothing(sx: Syntax)
    requires sx.WellFormed()
    ensures sx.Scan("\\", true, START) == Nothing(None)
    ensures Fields("\\") == ["\\"]
  {
    var line := "\\";
    assert line[1..] == "" && line[0] == '\\' && [] + [""] == [""];
    assert sx.Scan(line, true, START) == sx.Scan("", true, START);
    assert JoinLines("", false) == "" && ['\\'] + "" == line;
    assert JoinLines(line, false) == line;
    assert Text(None) + ['\\'] == line && Split("", Some(line), false) == [line];
    assert Split(line, None, false) == Split(line[1..], Some(Text(None) + [line[0]]), false);
    FieldsAreSplit(line);
  }

  /** An empty word before a line continuation and a blank is lost. */
  lemma EmptyWordIsLost(sx: Syntax)
    requires sx.WellFormed() && 'y' !in sx.shChars && "y" !in sx.shCmds
    ensures sx.Scan("''\\\n y", true, START) == Argv(["y"], None)
    ensures Fields("''\\\n y") == ["", "y"]
  {
    ScanOfExample(sx);
    FieldsOfExample();
  }

  lemma ScanOfExample(sx: Syntax)
    requires sx.WellFormed() && 'y' !in sx.shChars && "y" !in sx.shCmds
    ensures sx.Scan("''\\\n y", true, START) == Argv(["y"], None)
  {
    var line := "''\\\n y";
    assert line[1..] == "'\\\n y" && line[1..][1..] == "\\\n y";
    assert sx.Scan(line, true, START) == sx.Scan("\\\n y", true, START.(lastEmpty := true));
    ScanBehindEmptyWord(sx);
  }

  lemma ScanBehindEmptyWord(sx: Syntax)
    requires sx.WellFormed() && 'y' !in sx.shChars && "y" !in sx.shCmds
    ensures sx.Scan("\\\n y", true, START.(lastEmpty := true)) == Argv(["y"], None)
  {
    var s, st := "\\\n y", START.(lastEmpty := true);
    assert s[2..] == " y" && s[3..] == "y" && " y"[1..] == "y" && "y"[1..] == "";
    assert "" + ['y'] == "y" && [] + ["y"] == ["y"];
    assert sx.Scan("y", true, st) == sx.Scan("", true, st.(cur := "y"));
    assert sx.Scan(s, true, st) == sx.Scan("y", true, st);
  }

  lemma JoinedExample()
    ensures JoinLines("''\\\n y", false) == "'' y"
  {
    var line := "''\\\n y";
    assert line[1..] == "'\\\n y" && line[1..][1..] == "\\\n y" && "\\\n y"[2..] == " y";
    assert JoinLines(" y", false) == " y" && JoinLines("\\\n y", false) == " y";
    assert JoinLines(line[1..], true) == "'" + " y";
  }

  lemma FieldsOfExample()
    ensures Fields("''\\\n y") == ["", "y"]
  {
    JoinedExample();
    SplitExample();
    FieldsAreSplit("''\\\n y");
  }

  lemma SplitExample()
    ensures Split("'' y", None, false) == ["", "y"]
  {
    assert "'' y"[1..] == "' y" && "' y"[1..] == " y" && " y"[1..] == "y" && "y"[1..] == "";
    assert "" + ['y'] == "y" && Split("y", None, false) == ["y"];
    assert Split(" y", Some(""), false) == [""] + ["y"] == ["", "y"];
    assert Split("'' y", None, false) == Split("' y", Some(""), true) == Split(" y", Some(""), false);
  }

  // ----- characters that need a shell -----

  /** One of the characters stands neither between apostrophes nor behind a backslash. */
  predicate HasBare(s: string, quoted: bool, chars: string) {
    s != "" &&
    if quoted then HasBare(s[1..], s[0] != '\'', chars)
    else if s[0] in chars then true
    else if s[0] == '\\' && |s| > 1 then HasBare(s[2..], false, chars)
    else HasBare(s[1..], s[0] == '\'', chars)
  }

  lemma {:induction false} FewerBare(s: string, quoted: bool, few: string, chars: string)
    requires (forall c :: c in few ==> c in chars) && '\\' !in chars && '\'' !in chars
    requires !HasBare(s, quoted, chars)
    ensures !HasBare(s, quoted, few)
  {
    if s != "" {
      if !quoted && s[0] == '\\' && |s| > 1 {
        FewerBare(s[2..], false, few, chars);
      } else {
        FewerBare(s[1..], if quoted then s[0] != '\'' else s[0] == '\'', few, chars);
      }
    }
  }

  lemma {:induction false} BlanksHideNothing(s: string, chars: string)
    requires forall c :: c in chars ==> !IsBlank(c)
    ensures HasBare(s, false, chars) <==> HasBare(SkipBlanks(s), false, chars)
  {
    if s != "" && IsBlank(s[0]) { BlanksHideNothing(s[1..], chars); }
  }

  /** Going on by what is read at once passes no bare character. */
  lemma BareAhead(s: string, at: Place, chars: string)
    requires s != "" && (at.quoted || s[0] !in chars)
    requires forall c :: c in chars ==> !IsBlank(c) && c != '\\' && c != '\''
    ensures HasBare(s, at.quoted, chars) <==> HasBare(s[Used(s, at)..], PlaceAfter(s, at).quoted, chars)
  {
    if at.quoted {
      if Continues(s) { assert s[1..][1..] == s[2..]; }
    } else if Continues(s) {
      SkippedIs(s, 2);
      BlanksHideNothing(s[2..], chars);
    } else if IsBlank(s[0]) {
      SkippedIs(s, 1);
      BlanksHideNothing(s[1..], chars);
    }
  }

  /** What the scan goes through to the end has no bare shell character, nor a bare newline where
      that ends the command. */
  lemma {:induction false} NoBareChar(sx: Syntax, s: string, restp: bool, st: State, chars: string)
    requires sx.WellFormed() && '"' in sx.shChars && (st.instring.Some? ==> st.instring.value == '\'')
    requires forall c :: c in chars ==> c in sx.shChars || (restp && c == '\n')
    requires sx.Scan(s, restp, st).rest == None && !sx.Scan(s, restp, st).Slow?
    ensures !HasBare(s, st.instring.Some?, chars)
    decreases |s|
  {
    if s != "" {
      var round := if st.instring.Some? then sx.InString(s, restp, st) else sx.Outside(s, restp, st);
      RoundMoves(sx, s, restp, st, round.state, round.used);
      NoBareChar(sx, s[round.used..], restp, round.state, chars);
      BareAhead(s, PlaceOf(st), chars);
    }
  }

  lemma {:induction false} OnlyRestpSetsRest(sx: Syntax, s: string, st: State)
    ensures sx.Scan(s, false, st).rest == None
    decreases |s|
  {
    if s != "" {
      match if st.instring.Some? then sx.InString(s, false, st) else sx.Outside(s, false, st)
      case Stop(_) =>
      case Next(st', n) => OnlyRestpSetsRest(sx, s[n..], st');
    }
  }

  /** A line that the fast path splits, or finds empty, has no shell character in its command
      except between apostrophes or behind a backslash: any other goes to the shell. */
  lemma ShellCharsNeedShell(sx: Syntax, line: string, restp: bool)
    requires sx.WellFormed() && '"' in sx.shChars
    ensures var o := sx.Scan(line, restp, START);
      && (o.rest.Some? ==> |o.rest.value| <= |line|)
      && (!o.Slow? ==> !HasBare(Command(line, o.rest), false, sx.shChars))
  {
    NothingBare(sx, line, restp, sx.shChars);
  }

  /** Where newlines end commands, what is left in *restp is the line from the first bare one. */
  lemma NewlineIsFound(sx: Syntax, line: string)
    requires sx.WellFormed() && '"' in sx.shChars && !sx.Scan(line, true, START).Slow?
    ensures var rest := sx.Scan(line, true, START).rest;
      && (rest.Some? ==> |rest.value| <= |line| && line == Command(line, rest) + rest.value)
      && (rest.Some? ==> rest.value != "" && rest.value[0] == '\n')
      && !HasBare(Command(line, rest), false, "\n")
  {
    RestIsSuffix(sx, line, true, START);
    CommandAndRest(line, sx.Scan(line, true, START).rest);
    NothingBare(sx, line, true, "\n");
  }

  lemma NothingBare(sx: Syntax, line: string, restp: bool, chars: string)
    requires sx.WellFormed() && '"' in sx.shChars
    requires forall c :: c in chars ==> c in sx.shChars || (restp && c == '\n')
    ensures var o := sx.Scan(line, restp, START);
      && (o.rest.Some? ==> |o.rest.value| <= |line|)
      && (!o.Slow? ==> !HasBare(Command(line, o.rest), false, chars))
  {
    var o := sx.Scan(line, restp, START);
    RestIsSuffix(sx, line, restp, START);
    if !restp { OnlyRestpSetsRest(sx, line, START); }
    if !o.Slow? {
      var command := Command(line, o.rest);
      if o.rest.Some? {
        assert line == command + o.rest.value;
        NewlineEndsCommand(sx, command, o.rest.value, START);
      }
      NoBareChar(sx, command, restp, START, chars);
    }
  }

  /** The double quote is one of them. */
  lemma DoubleQuoteNeedsShell(sx: Syntax, line: string, restp: bool)
    requires sx.WellFormed() && '"' in sx.shChars
    ensures var o := sx.Scan(line, restp, START);
      && (o.rest.Some? ==> |o.rest.value| <= |line|)
      && (!o.Slow? ==> !HasBare(Command(line, o.rest), false, "\""))
  {
    var o := sx.Scan(line, restp, START);
    ShellCharsNeedShell(sx, line, restp);
    if !o.Slow? { FewerBare(Command(line, o.rest), false, "\"", sx.shChars); }
  }

  /** The simplest such line. */
  lemma QuotedWordNeedsShell(sx: Syntax, restp: bool)
    requires '"' in sx.shChars
    ensures sx.Scan("\"y\"", restp, START).Slow? && HasBare("\"y\"", false, "\"")
  {
  }
}
