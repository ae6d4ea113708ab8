/** Pattern rules: which of them match a name, and what makes the result of an implicit
    rule search a sound derivation. */
module ImplicitRules {
  import opened Prelude

  /** A target with its %, and the text around it. */
  datatype Pattern = Pattern(prefix: string, suffix: string)

  datatype Rule = Rule(targets: seq<Pattern>, deps: seq<string>, hasRecipe: bool, terminal: bool)

  /** A rule, one of its targets, and the stem, without the directory when slash is set. */
  datatype Try = Try(rule: nat, target: nat, slash: bool, stem: string)

  /** Why a prerequisite needs no rule. */
  datatype Reason = IsTarget | IsMentioned | Exists | IsKnown | OnVpath

  datatype Verdict = Impossible | Available(why: Reason) | Missing

  datatype Prereq =
    | Leaf(name: string, why: Reason)
    | Made(name: string, recipe: Recipe)

  /** The rule chosen, and the prerequisites with the rule they were collected for. */
  datatype Recipe = Recipe(choice: Try, source: Try, prereqs: seq<Prereq>)

  /** The part of the file database the search looks at: names entered, those that are
      targets, and names ruled out. */
  datatype Database = Database(known: set<string>, targets: set<string>, impossible: set<string>)

  predicate MatchesAnything(p: Pattern) {
    p == Pattern("", "")
  }

  // ----- directories -----

  /** The length of the directory part. A slash at the end does not count. */
  function PathLength(name: string): (length: nat)
    ensures length == 0 || length < |name|
  {
    if name == "" then 0 else AfterSlash(name, |name| - 1)
  }

  function Directory(name: string): string {
    name[..PathLength(name)]
  }

  predicate UsesDirectory(name: string, p: Pattern) {
    PathLength(name) > 0 && '/' !in p.prefix && '/' !in p.suffix
  }

  // ----- matching -----

  /** The stem, found by counting the lengths of the parts. */
  function MatchTarget(name: string, p: Pattern): Option<string> {
    var fixed := |p.prefix| + |p.suffix|;
    var pathLength := if UsesDirectory(name, p) then PathLength(name) else 0;
    if fixed + 1 > |name| then None
    else if pathLength > |name| - fixed then None
    else
      var start := pathLength + |p.prefix|;
      var end := |name| - |p.suffix|;
      if name[pathLength..start] != p.prefix || name[end..] != p.suffix then None
      else Some(name[start..end])
  }

  lemma PartsOfWhole(d: string, prefix: string, stem: string, suffix: string, whole: string)
    requires whole == d + prefix + stem + suffix
    ensures whole[..|d|] == d && whole[|d|..|d| + |prefix|] == prefix
    ensures whole[|d| + |prefix|..|whole| - |suffix|] == stem && whole[|whole| - |suffix|..] == suffix
  {
  }

  lemma WholeFromParts(name: string, i: nat, j: nat, k: nat)
    requires i <= j <= k <= |name|
    ensures name == name[..i] + name[i..j] + name[j..k] + name[k..]
  {
  }

  /** A pattern matches exactly the names made of the directory, if it is set apart, and the
      pattern with the stem. The stem may be empty, but only behind a directory. */
  lemma MatchExactly(name: string, p: Pattern, stem: string)
    ensures MatchTarget(name, p) == Some(stem)
      <==> name == (if UsesDirectory(name, p) then Directory(name) else "") + p.prefix + stem + p.suffix
           && (UsesDirectory(name, p) || stem != "")
  {
    var d := if UsesDirectory(name, p) then Directory(name) else "";
    if name == d + p.prefix + stem + p.suffix && (d != "" || stem != "") {
      MatchComplete(name, p, stem, d);
    }
    if MatchTarget(name, p) == Some(stem) {
      MatchSound(name, p, stem, d);
    }
  }

  lemma MatchComplete(name: string, p: Pattern, stem: string, d: string)
    requires d == if UsesDirectory(name, p) then Directory(name) else ""
    requires name == d + p.prefix + stem + p.suffix && (d != "" || stem != "")
    ensures MatchTarget(name, p) == Some(stem)
  {
    PartsOfWhole(d, p.prefix, stem, p.suffix, name);
  }

  lemma MatchSound(name: string, p: Pattern, stem: string, d: string)
    requires d == if UsesDirectory(name, p) then Directory(name) else ""
    requires MatchTarget(name, p) == Some(stem)
    ensures name == d + p.prefix + stem + p.suffix && (d != "" || stem != "")
  {
    WholeFromParts(name, |d|, |d| + |p.prefix|, |name| - |p.suffix|);
  }

  /** The manual has % match a nonempty substring, but with a directory it can be empty. */
  lemma EmptyStemBehindDirectory()
    ensures MatchTarget("d/.o", Pattern("", ".o")) == Some("")
    ensures MatchTarget(".o", Pattern("", ".o")) == None
  {
    var name, p := "d/.o", Pattern("", ".o");
    assert AfterSlash(name, 3) == AfterSlash(name, 2) == 2;
    assert name == "d/" + "" + "" + ".o";
    MatchExactly(name, p, "");
  }

  /** The name of another target of the rule, made with the stem as it is recorded. */
  function OtherTarget(name: string, t: Try, p: Pattern): string {
    p.prefix + FullStem(name, t) + p.suffix
  }

  function FullStem(name: string, t: Try): string {
    (if t.slash then Directory(name) else "") + t.stem
  }

  /** The name that target has in the directory set apart. */
  function MeantTarget(name: string, t: Try, p: Pattern): string {
    (if t.slash then Directory(name) else "") + p.prefix + t.stem + p.suffix
  }

  /** The two are the same exactly when no directory was set apart, or it does not matter
      whether the directory or the text before the % comes first. */
  lemma OtherTargetExactlyWhen(name: string, t: Try, p: Pattern)
    ensures OtherTarget(name, t, p) == MeantTarget(name, t, p)
      <==> !t.slash || p.prefix + Directory(name) == Directory(name) + p.prefix
  {
    if t.slash {
      var d, rest := Directory(name), t.stem + p.suffix;
      Regroup(d + p.prefix, t.stem, p.suffix);
      Regroup(p.prefix + d, t.stem, p.suffix);
      Regroup(p.prefix, d, t.stem);
      SameBehind(p.prefix + d, d + p.prefix, rest);
    } else {
      assert "" + t.stem == t.stem && "" + p.prefix == p.prefix;
    }
  }

  lemma SameBehind(a: string, b: string, rest: string)
    requires |a| == |b|
    ensures a + rest == b + rest <==> a == b
  {
    assert (a + rest)[..|a|] == a && (b + rest)[..|b|] == b;
  }

  /** For a pattern without a slash before its %, that means that it begins with the %. */
  lemma PlainOtherTargetExactlyWhen(name: string, t: Try, p: Pattern)
    requires t.slash ==> PathLength(name) > 0
    requires '/' !in p.prefix
    ensures OtherTarget(name, t, p) == MeantTarget(name, t, p) <==> !t.slash || p.prefix == ""
  {
    OtherTargetExactlyWhen(name, t, p);
    var d := Directory(name);
    if t.slash && p.prefix == "" {
      assert "" + d == d + "";
    } else if t.slash {
      NoSlashAfter(name, |name| - 1);
      var last := |p.prefix| + |d| - 1;
      assert (p.prefix + d)[last] == d[|d| - 1] == '/';
      assert (d + p.prefix)[last] == p.prefix[|p.prefix| - 1];
    }
  }

  /** Made for d/x.a with the stem x, the targets l%.b and sub/%.b get these names. */
  lemma MisplacedTargets()
    ensures MatchTarget("d/x.a", Pattern("", ".a")) == Some("x") && UsesDirectory("d/x.a", Pattern("", ".a"))
    ensures OtherTarget("d/x.a", Try(0, 0, true, "x"), Pattern("l", ".b")) == "ld/x.b"
    ensures MeantTarget("d/x.a", Try(0, 0, true, "x"), Pattern("l", ".b")) == "d/lx.b"
    ensures OtherTarget("d/x.a", Try(0, 0, true, "x"), Pattern("sub/", ".b")) == "sub/d/x.b"
    ensures MeantTarget("d/x.a", Try(0, 0, true, "x"), Pattern("sub/", ".b")) == "d/sub/x.b"
  {
    var name, p := "d/x.a", Pattern("", ".a");
    assert AfterSlash(name, 4) == AfterSlash(name, 3) == AfterSlash(name, 2) == 2;
    assert Directory(name) == "d/";
    assert name == "d/" + "" + "x" + ".a";
    MatchExactly(name, p, "x");
  }

  // ----- a makefile and the files around it -----

  function FirstPercent(s: string): (i: nat)
    ensures i <= |s|
  {
    if s == "" || s[0] == '%' then 0 else 1 + FirstPercent(s[1..])
  }

  lemma {:induction false} FirstPercentIs(a: string, b: string)
    requires '%' !in a
    ensures FirstPercent(a + "%" + b) == |a|
  {
    if a == "" {
      assert a + "%" + b == "%" + b;
    } else {
      assert (a + "%" + b)[1..] == a[1..] + "%" + b;
      FirstPercentIs(a[1..], b);
    }
  }

  lemma {:induction false} NoPercent(s: string)
    requires '%' !in s
    ensures FirstPercent(s) == |s|
  {
    if s != "" { NoPercent(s[1..]); }
  }

  /** Files are looked at through parameters: which exist, which VPATH finds, and the names a
      word stands for once its wildcards are expanded. */
  datatype Makefile = Makefile(rules: seq<Rule>, fileExists: string -> bool, vpathFinds: string -> bool,
      parse: string -> seq<string>, maxPath: nat) {

    predicate InRange(t: Try) {
      t.rule < |rules| && t.target < |rules[t.rule].targets|
    }

    function TargetOf(t: Try): Pattern
      requires InRange(t)
    {
      rules[t.rule].targets[t.target]
    }

    /** The rule may be considered for the name: it is not cancelled, not in use, and does not
        match anything and everything on behalf of an intermediate file. */
    predicate Matching(name: string, nested: bool, used: set<nat>, t: Try) {
      && InRange(t)
      && (rules[t.rule].deps == [] || rules[t.rule].hasRecipe)
      && t.rule !in used
      && (nested && MatchesAnything(TargetOf(t)) ==> rules[t.rule].terminal)
      && t.slash == UsesDirectory(name, TargetOf(t))
      && MatchTarget(name, TargetOf(t)) == Some(t.stem)
    }

    predicate Candidate(name: string, nested: bool, used: set<nat>, t: Try) {
      Matching(name, nested, used, t) && rules[t.rule].hasRecipe
    }

    ghost predicate Specific(name: string, nested: bool, used: set<nat>) {
      exists t :: Matching(name, nested, used, t) && !MatchesAnything(TargetOf(t))
    }

    predicate Rejectable(t: Try)
      requires InRange(t)
    {
      var rule := rules[t.rule];
      !rule.terminal && exists j: nat :: j < |rule.targets| && MatchesAnything(rule.targets[j])
    }

    ghost predicate Eligible(name: string, nested: bool, used: set<nat>, t: Try) {
      Candidate(name, nested, used, t) && !(Specific(name, nested, used) && Rejectable(t))
    }

    predicate Short(name: string, t: Try) {
      |FullStem(name, t)| <= maxPath
    }

    /** The stem takes the place of the first %, behind the directory if that was set apart. */
    function PrereqText(name: string, t: Try, dep: string): string {
      var i := FirstPercent(dep);
      if i == |dep| then dep
      else (if t.slash then Directory(name) else "") + dep[..i] + t.stem + dep[i + 1..]
    }

    /** The prerequisites named by the first n of the rule. */
    function Names(name: string, t: Try, n: nat): seq<string>
      requires InRange(t) && n <= |rules[t.rule].deps|
    {
      if n == 0 then []
      else Names(name, t, n - 1) + parse(PrereqText(name, t, rules[t.rule].deps[n - 1]))
    }

    function AllNames(name: string, t: Try): seq<string>
      requires InRange(t)
    {
      Names(name, t, |rules[t.rule].deps|)
    }

    /** What can be said about a prerequisite without looking for a rule. */
    function Judge(db: Database, mentioned: set<string>, compat: bool, name: string): Verdict {
      if name in db.impossible then Impossible
      else if name in db.targets then Available(IsTarget)
      else if name in mentioned then Available(IsMentioned)
      else if fileExists(name) then Available(Exists)
      else if compat && name in db.known then Available(IsKnown)
      else if vpathFinds(name) then Available(OnVpath)
      else Missing
    }

    /** All prerequisites are at hand. */
    ghost predicate Applies(db: Database, mentioned: set<string>, compat: bool, name: string, t: Try)
      requires InRange(t)
    {
      Short(name, t) &&
      forall n :: n in AllNames(name, t) ==> Judge(db, mentioned, compat, n).Available?
    }

    // ----- derivations -----

    predicate Holds(db: Database, mentioned: set<string>, name: string, why: Reason) {
      match why
      case IsTarget => name in db.targets
      case IsMentioned => name in mentioned
      case Exists => fileExists(name)
      case IsKnown => name in db.known
      case OnVpath => vpathFinds(name)
    }

    /** The prerequisite is at hand or has a sound derivation, without the rules in use. */
    ghost predicate Justified(db: Database, mentioned: set<string>, used: set<nat>, p: Prereq)
      decreases p
    {
      match p
      case Leaf(name, why) => Holds(db, mentioned, name, why)
      case Made(name, recipe) => Sound(db, {}, used, true, name, recipe)
    }

    /** The rule chosen matches the name with the stem. Every prerequisite is justified with
        the rule in use. They are those of the rule, unless it has none: then they are left
        over from another rule that did not apply. */
    ghost predicate Sound(db: Database, mentioned: set<string>, used: set<nat>, nested: bool, name: string, r: Recipe)
      decreases r
    {
      && Eligible(name, nested, used, r.choice) && Short(name, r.choice)
      && Eligible(name, nested, used, r.source)
      && (rules[r.choice.rule].deps != [] ==> r.source == r.choice && NamesOf(r.prereqs) == AllNames(name, r.choice))
      && (rules[r.choice.rule].deps == [] && r.prereqs != [] ==> LeftOver(name, r))
      && (forall i: nat :: i < |r.prereqs| ==> Justified(db, mentioned, used + {r.source.rule}, r.prereqs[i]))
    }

    predicate LeftOver(name: string, r: Recipe)
      requires InRange(r.source)
    {
      NamesOf(r.prereqs) < AllNames(name, r.source)
    }

    /** The rules whose prerequisites were collected, from the root down to some file. */
    ghost predicate IsPath(r: Recipe, path: seq<nat>)
      decreases r
    {
      && path != [] && path[0] == r.source.rule
      && (|path| > 1 ==>
            exists i: nat :: i < |r.prereqs| && r.prereqs[i].Made? && IsPath(r.prereqs[i].recipe, path[1..]))
    }

    /** No rule that needed prerequisites occurs twice on a path. */
    lemma {:induction false} NoRuleRepeats(db: Database, mentioned: set<string>, used: set<nat>, nested: bool,
                                           name: string, r: Recipe, path: seq<nat>)
      requires Sound(db, mentioned, used, nested, name, r) && IsPath(r, path)
      ensures forall i: nat :: i < |path| ==> path[i] !in used && path[i] < |rules|
      ensures forall i: nat, j: nat :: i < j < |path| ==> path[i] != path[j]
      decreases |path|
    {
      if |path| > 1 {
        var i: nat :| i < |r.prereqs| && r.prereqs[i].Made? && IsPath(r.prereqs[i].recipe, path[1..]);
        var p := r.prereqs[i];
        assert Justified(db, mentioned, used + {r.source.rule}, p);
        NoRuleRepeats(db, {}, used + {r.source.rule}, true, p.name, p.recipe, path[1..]);
        assert forall k: nat :: 0 < k < |path| ==> path[k] == path[1..][k - 1];
      }
    }

    // ----- a growing database -----

    /** The database only grows, and no name that was at hand is ruled out. */
    ghost predicate Extends(a: Database, b: Database) {
      && a.known <= b.known && a.targets <= b.targets && a.impossible <= b.impossible
      && (forall n :: n in b.impossible - a.impossible ==> n !in a.known && !fileExists(n) && !vpathFinds(n))
    }

    lemma AppliesStays(a: Database, b: Database, mentioned: set<string>, compat: bool, name: string, t: Try)
      requires Extends(a, b) && InRange(t) && mentioned + a.targets <= a.known
      requires Applies(a, mentioned, compat, name, t)
      ensures Applies(b, mentioned, compat, name, t)
    {
      forall n | n in AllNames(name, t) ensures Judge(b, mentioned, compat, n).Available? {
        assert Judge(a, mentioned, compat, n).Available?;
        assert n in b.impossible ==> n in b.impossible - a.impossible;
      }
    }

    lemma {:induction false} JustifiedStays(a: Database, b: Database, mentioned: set<string>, used: set<nat>, p: Prereq)
      requires a.known <= b.known && a.targets <= b.targets
      requires Justified(a, mentioned, used, p)
      ensures Justified(b, mentioned, used, p)
      decreases p
    {
      match p
      case Leaf(name, why) =>
      case Made(name, recipe) => SoundStays(a, b, {}, used, true, name, recipe);
    }

    lemma {:induction false} SoundStays(a: Database, b: Database, mentioned: set<string>, used: set<nat>,
                                        nested: bool, name: string, r: Recipe)
      requires a.known <= b.known && a.targets <= b.targets
      requires Sound(a, mentioned, used, nested, name, r)
      ensures Sound(b, mentioned, used, nested, name, r)
      decreases r
    {
      forall i: nat | i < |r.prereqs| ensures Justified(b, mentioned, used + {r.source.rule}, r.prereqs[i]) {
        JustifiedStays(a, b, mentioned, used + {r.source.rule}, r.prereqs[i]);
      }
    }
  }

  // ----- what a prerequisite stands for -----

  /** A directory in front of a name without a slash is its directory. */
  lemma DirectoryInFront(d: string, base: string)
    requires d == "" || d[|d| - 1] == '/'
    requires base != "" && '/' !in base
    ensures PathLength(d + base) == |d| && Directory(d + base) == d
  {
    var whole := d + base;
    AfterLastSlash(whole, |d|, |whole| - 1);
    assert whole[..|d|] == d;
  }

  lemma {:induction false} AfterLastSlash(s: string, i: nat, n: nat)
    requires i <= n <= |s| && (i == 0 || s[i - 1] == '/')
    requires forall k :: i <= k < n ==> s[k] != '/'
    ensures AfterSlash(s, n) == i
  {
    if n > i { AfterLastSlash(s, i, n - 1); }
  }

  /** The directory of a name ends in a slash, and what follows it has none but at the end. */
  lemma DirectoryIs(name: string)
    ensures var d := Directory(name);
      && d <= name && (name != "" ==> d != name) && (d == "" || d[|d| - 1] == '/')
      && forall k :: |d| <= k < |name| - 1 ==> name[k] != '/'
  {
    if name != "" { NoSlashAfter(name, |name| - 1); }
  }

  /** The text made of a prerequisite is the directory that was set apart, the text before its %,
      the stem, and the text behind; so it has the stem that the target has. */
  lemma StemTakesPlace(make: Makefile, name: string, t: Try, a: string, b: string)
    requires '%' !in a && '/' !in a && '/' !in b && t.stem != "" && '/' !in t.stem
    requires t.slash ==> PathLength(name) > 0
    ensures var text := make.PrereqText(name, t, a + "%" + b);
      && text == (if t.slash then Directory(name) else "") + a + t.stem + b
      && MatchTarget(text, Pattern(a, b)) == Some(t.stem)
      && UsesDirectory(text, Pattern(a, b)) == t.slash
      && Directory(text) == if t.slash then Directory(name) else ""
  {
    var dep, d := a + "%" + b, if t.slash then Directory(name) else "";
    var text := make.PrereqText(name, t, dep);
    FirstPercentIs(a, b);
    assert dep[..|a|] == a && dep[|a| + 1..] == b;
    assert text == d + a + t.stem + b;
    DirectoryIs(name);
    var base := a + t.stem + b;
    assert text == d + base;
    DirectoryInFront(d, base);
    MatchExactly(text, Pattern(a, b), t.stem);
  }

  /** A prerequisite without a % stays as it is. */
  lemma ExplicitStays(make: Makefile, name: string, t: Try, dep: string)
    requires '%' !in dep
    ensures make.PrereqText(name, t, dep) == dep
  {
    NoPercent(dep);
  }

  function NamesOf(prereqs: seq<Prereq>): (names: seq<string>)
    ensures |names| == |prereqs|
  {
    if prereqs == [] then [] else NamesOf(prereqs[..|prereqs| - 1]) + [prereqs[|prereqs| - 1].name]
  }
}
